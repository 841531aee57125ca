/**
 * The static builders of the Lattice class (lattices.js:331-352) and the
 * sub-lattice of join-irreducible elements (lattices.js:400-414), on top of
 * the constructor modelled in the Construct module.
 */
module Statics {
  import opened Utils
  import opened Lattices
  import opened UtilsChildren
  import opened Generators
  import opened Construct

  // ---------------------------------------------------------------------
  // Joins and meets are unique.

  lemma LubUnique(n: nat, leq: seq<seq<bool>>, a: nat, b: nat, c: nat, d: nat)
    requires PartialOrder(n, leq) && a < n && b < n
    requires IsLub(n, leq, a, b, c) && IsLub(n, leq, a, b, d)
    ensures c == d
  {
    assert UpperBoundAbove(n, leq, a, b, c, d) && UpperBoundAbove(n, leq, a, b, d, c);
    assert Antisymmetric2(n, leq, c, d);
  }

  lemma GlbUnique(n: nat, leq: seq<seq<bool>>, a: nat, b: nat, c: nat, d: nat)
    requires PartialOrder(n, leq) && a < n && b < n
    requires IsGlb(n, leq, a, b, c) && IsGlb(n, leq, a, b, d)
    ensures c == d
  {
    assert LowerBoundBelow(n, leq, a, b, c, d) && LowerBoundBelow(n, leq, a, b, d, c);
    assert Antisymmetric2(n, leq, c, d);
  }

  // ---------------------------------------------------------------------
  // The chain 0 < 1 < ... < n-1 (lattices.js:331-336).

  /** The order of the chain: a is below b when a <= b. */
  ghost function ChainOrder(n: nat): (t: seq<seq<bool>>)
    ensures Square(t, n)
  {
    seq(n, (a: int) => seq(n, (b: int) => a <= b))
  }

  /** The larger and the smaller of two elements of the chain. */
  function Larger(a: nat, b: nat): nat { if a <= b then b else a }
  function Smaller(a: nat, b: nat): nat { if a <= b then a else b }

  /** The chain is a lattice whose join is the larger element and meet the smaller. */
  lemma ChainLattice(n: nat)
    requires n >= 1
    ensures LatticeOrder(n, ChainOrder(n))
    ensures forall a, b :: 0 <= a < n && 0 <= b < n ==>
      IsLub(n, ChainOrder(n), a, b, Larger(a, b)) && IsGlb(n, ChainOrder(n), a, b, Smaller(a, b))
  {
    var t := ChainOrder(n);
    assert forall a, b :: 0 <= a < n && 0 <= b < n ==> t[a][b] == (a <= b);
    forall a, b | 0 <= a < n && 0 <= b < n
      ensures Antisymmetric2(n, t, a, b) && IsLub(n, t, a, b, Larger(a, b)) && IsGlb(n, t, a, b, Smaller(a, b))
      ensures HasLub(n, t, a, b) && HasGlb(n, t, a, b)
    {
      assert IsLub(n, t, a, b, Larger(a, b)) && IsGlb(n, t, a, b, Smaller(a, b));
    }
    forall a, b, c | 0 <= a < n && 0 <= b < n && 0 <= c < n ensures Transitive3(n, t, a, b, c) {
    }
  }

  /**
   * lattices.js:331-336: `Lattice.total(n)`, the chain of n elements: b is
   * above a exactly when a <= b, joins are maxima and meets minima.
   */
  method Total(n: nat) returns (L: Lattice)
    requires n >= 1
    ensures Valid(L) && L.n == n
    ensures forall a, b :: 0 <= a < n && 0 <= b < n ==>
      && L.leq[a][b] == (a <= b)
      && L.lub[a][b] == Larger(a, b)
      && L.glb[a][b] == Smaller(a, b)
  {
    var leq := FalseMat(n);
    for a := 0 to n
      invariant Square(leq, n)
      invariant forall x, y :: 0 <= x < n && 0 <= y < n ==> leq[x][y] == (x < a && x <= y)
    {
      for b := a to n
        invariant Square(leq, n)
        invariant forall x, y :: 0 <= x < n && 0 <= y < n ==>
          leq[x][y] == ((x < a && x <= y) || (x == a && a <= y < b))
      {
        var row := leq[a][b := true];
        leq := leq[a := row];
      }
    }
    ChainLattice(n);
    forall x | 0 <= x < n ensures leq[x] == ChainOrder(n)[x] {
    }
    assert leq == ChainOrder(n);
    var r := Build(leq, None);
    L := r.value;
    assert Tables(L);
    forall a, b | 0 <= a < n && 0 <= b < n ensures L.lub[a][b] == Larger(a, b) && L.glb[a][b] == Smaller(a, b) {
      LubUnique(n, leq, a, b, L.lub[a][b], Larger(a, b));
      GlbUnique(n, leq, a, b, L.glb[a][b], Smaller(a, b));
    }
  }

  // ---------------------------------------------------------------------
  // Building from a covering relation (lattices.js:338-352).

  /**
   * lattices.js:348-352: `Lattice.fromChildren(children)`. For the covering
   * relation of a lattice order, the closure children2leq computes is that
   * order, and the lattice built keeps the given covering lists.
   */
  method FromChildren(children: seq<seq<nat>>) returns (L: Lattice)
    requires LatticeCovering(children)
    ensures Valid(L) && L.n == |children| && L.children == children
    ensures forall leq :: CoveringLattice(children, leq) ==> L.leq == leq
  {
    var n := |children|;
    ghost var order :| CoveringLattice(children, order);
    CoveringRanked(n, order, children);
    var c := Children2Leq(children);
    CoveringClosure(n, order, children);
    ClosureUnique(children, c.value, order);
    var r := Build(c.value, Some(children));
    L := r.value;
    forall leq | CoveringLattice(children, leq) ensures L.leq == leq {
      CoveringClosure(n, leq, children);
      ClosureUnique(children, leq, order);
    }
  }

  /**
   * lattices.js:338-342: `Lattice.powerset(log2n)`, the subset lattice of
   * log2n bits. The shift behind the size takes its count modulo 32 and
   * fails on 31, as in the Generators module.
   */
  method PowersetOf(log2n: int) returns (r: Result<Lattice>)
    ensures r.Success? <==> log2n % 32 != 31
    ensures r.Success? ==> Valid(r.value) && r.value.n == Pow2(log2n % 32)
    ensures r.Success? ==> r.value.leq == SubsetOrder(log2n % 32) && r.value.children == PowersetChildren(log2n % 32)
  {
    var p := Powerset(log2n);
    if p.Failure? {
      return Failure(p.error);
    }
    ghost var k := log2n % 32;
    PowersetLattice(k);
    assert CoveringLattice(p.value, SubsetOrder(k));
    var L := FromChildren(p.value);
    return Success(L);
  }

  /**
   * lattices.js:343-347: `Lattice.preset(k)` builds the lattice of the
   * presets generator; None when the generator's fuel runs out.
   */
  method PresetOf(k: int, fuel: nat) returns (r: Option<Lattice>)
    ensures r.Some? ==> Valid(r.value) && r.value.n == (if k < 2 then 2 else k)
  {
    var p := Presets(k, fuel);
    if p.None? {
      return None;
    }
    var L := FromChildren(p.value);
    return Some(L);
  }

  // ---------------------------------------------------------------------
  // The join-irreducible elements (lattices.js:400-414).

  /** The elements below k with exactly one child, in increasing order. */
  function Irreducibles(children: seq<seq<nat>>, k: nat): (s: seq<nat>)
    requires k <= |children|
    ensures forall i, j :: 0 <= i < j < |s| ==> s[i] < s[j]
    ensures forall i :: 0 <= i < |s| ==> s[i] < k && |children[s[i]]| == 1
    ensures forall x :: 0 <= x < k && |children[x]| == 1 ==> x in s
  {
    if k == 0 then []
    else Irreducibles(children, k - 1) + (if |children[k - 1]| == 1 then [k - 1] else [])
  }

  /** The order leq restricted to the elements listed in s. */
  ghost function Restrict(leq: seq<seq<bool>>, s: seq<nat>): (t: seq<seq<bool>>)
    requires forall i :: 0 <= i < |s| ==> s[i] < |leq| && |leq[s[i]]| == |leq|
    ensures Square(t, |s|)
  {
    seq(|s|, (i: int) requires 0 <= i < |s| => seq(|s|, (j: int) requires 0 <= j < |s| => leq[s[i]][s[j]]))
  }

  /**
   * lattices.js:404-405: the table sending each listed element to its index
   * in s and every other element below n to -1.
   */
  method IndexTable(s: seq<nat>, n: nat) returns (t: seq<int>)
    requires forall i, j :: 0 <= i < j < |s| ==> s[i] < s[j]
    requires forall i :: 0 <= i < |s| ==> s[i] < n
    ensures |t| == n
    ensures forall i :: 0 <= i < |s| ==> t[s[i]] == i
    ensures forall x :: 0 <= x < n && x !in s ==> t[x] == -1
  {
    t := seq(n, (_: int) => -1);
    for i := 0 to |s|
      invariant |t| == n
      invariant forall j :: 0 <= j < i ==> t[s[j]] == j
      invariant forall x :: 0 <= x < n && x !in s[..i] ==> t[x] == -1
    {
      t := t[s[i] := i];
    }
    assert s[..|s|] == s;
  }

  /** lattices.js:406-411: the order leq read at the pairs of listed elements. */
  method RestrictTable(leq: seq<seq<bool>>, s: seq<nat>) returns (t: seq<seq<bool>>)
    requires forall i :: 0 <= i < |s| ==> s[i] < |leq| && |leq[s[i]]| == |leq|
    ensures t == Restrict(leq, s)
  {
    var k := |s|;
    t := FalseMat(k);
    for i := 0 to k
      invariant Square(t, k)
      invariant forall x, y :: 0 <= x < i && 0 <= y < k ==> t[x][y] == leq[s[x]][s[y]]
    {
      for j := 0 to k
        invariant Square(t, k)
        invariant forall x, y :: 0 <= x < i && 0 <= y < k ==> t[x][y] == leq[s[x]][s[y]]
        invariant forall y :: 0 <= y < j ==> t[i][y] == leq[s[i]][s[y]]
      {
        var a := s[i];
        var b := s[j];
        var row := t[i][j := leq[a][b]];
        t := t[i := row];
      }
    }
    forall x | 0 <= x < k ensures t[x] == Restrict(leq, s)[x] {
    }
  }

  /**
   * lattices.js:400-414: `subLatticeIrr()`. subToSuper lists, in increasing
   * order, exactly the elements with one child; superToSub maps each of them
   * back to its index and every other element to -1; sub is built from leq
   * restricted to them.
   */
  method SubLatticeIrr(L: Lattice) returns (sub: Lattice, subToSuper: seq<nat>, superToSub: seq<int>)
    requires Valid(L)
    requires LatticeOrder(|Irreducibles(L.children, L.n)|, Restrict(L.leq, Irreducibles(L.children, L.n)))
    ensures forall i, j :: 0 <= i < j < |subToSuper| ==> subToSuper[i] < subToSuper[j]
    ensures forall x :: 0 <= x < L.n ==> (x in subToSuper <==> |L.children[x]| == 1)
    ensures forall i :: 0 <= i < |subToSuper| ==> subToSuper[i] < L.n
    ensures |superToSub| == L.n
    ensures forall i :: 0 <= i < |subToSuper| ==> superToSub[subToSuper[i]] == i
    ensures forall x :: 0 <= x < L.n && x !in subToSuper ==> superToSub[x] == -1
    ensures Valid(sub) && sub.n == |subToSuper|
    ensures forall i, j :: 0 <= i < sub.n && 0 <= j < sub.n ==> sub.leq[i][j] == L.leq[subToSuper[i]][subToSuper[j]]
  {
    var n := L.n;
    subToSuper := Irreducibles(L.children, n);
    var subN := |subToSuper|;
    superToSub := IndexTable(subToSuper, n);
    var subLeq := RestrictTable(L.leq, subToSuper);
    var r := Build(subLeq, None);
    sub := r.value;
  }
}
