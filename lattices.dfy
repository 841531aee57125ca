/**
 * The finite lattice of lattices.js, as the record of tables its constructor
 * derives from an order relation `leq` (and, optionally, a covering relation).
 * Elements are the integers 0..n-1. A lattice is immutable once built, so it
 * is a datatype; `Valid` is the invariant every derived table satisfies.
 *
 * The universally quantified order axioms are stated through one predicate per
 * instance (Transitive3, UpperBoundAbove, ...), so that the verifier uses an
 * instance only where a proof names it, through the lemmas further down.
 */
module Lattices {

  /** The derived tables stored on a lattice object (lattices.js:309-324). */
  datatype Lattice = Lattice(
    n: nat,
    m: nat,
    top: nat,
    bottom: nat,
    leq: seq<seq<bool>>,
    geq: seq<seq<bool>>,
    lt: seq<seq<bool>>,
    gt: seq<seq<bool>>,
    isChild: seq<seq<bool>>,
    lub: seq<seq<nat>>,
    glb: seq<seq<nat>>,
    children: seq<seq<nat>>,
    parents: seq<seq<nat>>,
    topoDownUp: seq<nat>,
    topoUpDown: seq<nat>,
    uncomparables: seq<(nat, nat)>)

  /** An n-by-n table. */
  ghost predicate Square<T>(t: seq<seq<T>>, n: nat) {
    |t| == n && forall i :: 0 <= i < n ==> |t[i]| == n
  }

  /** Every entry of the table is an element, that is, below n. */
  ghost predicate Entries(t: seq<seq<nat>>, n: nat) {
    forall i, j :: 0 <= i < |t| && 0 <= j < |t[i]| ==> t[i][j] < n
  }

  ghost predicate Transitive3(n: nat, leq: seq<seq<bool>>, a: nat, b: nat, c: nat)
    requires Square(leq, n) && a < n && b < n && c < n
  {
    leq[a][b] && leq[b][c] ==> leq[a][c]
  }

  ghost predicate Antisymmetric2(n: nat, leq: seq<seq<bool>>, a: nat, b: nat)
    requires Square(leq, n) && a < n && b < n
  {
    leq[a][b] && leq[b][a] ==> a == b
  }

  ghost predicate PartialOrder(n: nat, leq: seq<seq<bool>>) {
    && Square(leq, n)
    && (forall a :: 0 <= a < n ==> leq[a][a])
    && (forall a, b :: 0 <= a < n && 0 <= b < n ==> Antisymmetric2(n, leq, a, b))
    && (forall a, b, c :: 0 <= a < n && 0 <= b < n && 0 <= c < n ==> Transitive3(n, leq, a, b, c))
  }

  /** c is below x whenever x is above both a and b. */
  ghost predicate UpperBoundAbove(n: nat, leq: seq<seq<bool>>, a: nat, b: nat, c: nat, x: nat)
    requires Square(leq, n) && a < n && b < n && c < n && x < n
  {
    leq[a][x] && leq[b][x] ==> leq[c][x]
  }

  /** c is above x whenever x is below both a and b. */
  ghost predicate LowerBoundBelow(n: nat, leq: seq<seq<bool>>, a: nat, b: nat, c: nat, x: nat)
    requires Square(leq, n) && a < n && b < n && c < n && x < n
  {
    leq[x][a] && leq[x][b] ==> leq[x][c]
  }

  /** c is the least upper bound of a and b. */
  ghost predicate IsLub(n: nat, leq: seq<seq<bool>>, a: nat, b: nat, c: nat)
    requires Square(leq, n) && a < n && b < n
  {
    c < n && leq[a][c] && leq[b][c] &&
    forall x :: 0 <= x < n ==> UpperBoundAbove(n, leq, a, b, c, x)
  }

  /** c is the greatest lower bound of a and b. */
  ghost predicate IsGlb(n: nat, leq: seq<seq<bool>>, a: nat, b: nat, c: nat)
    requires Square(leq, n) && a < n && b < n
  {
    c < n && leq[c][a] && leq[c][b] &&
    forall x :: 0 <= x < n ==> LowerBoundBelow(n, leq, a, b, c, x)
  }

  ghost predicate HasLub(n: nat, leq: seq<seq<bool>>, a: nat, b: nat)
    requires Square(leq, n) && a < n && b < n
  {
    exists c :: IsLub(n, leq, a, b, c)
  }

  ghost predicate HasGlb(n: nat, leq: seq<seq<bool>>, a: nat, b: nat)
    requires Square(leq, n) && a < n && b < n
  {
    exists c :: IsGlb(n, leq, a, b, c)
  }

  /** A non-empty finite partial order in which every pair has a join and a meet. */
  ghost predicate LatticeOrder(n: nat, leq: seq<seq<bool>>) {
    && n > 0
    && PartialOrder(n, leq)
    && (forall a, b :: 0 <= a < n && 0 <= b < n ==> HasLub(n, leq, a, b) && HasGlb(n, leq, a, b))
  }

  /** x is not strictly between a and b. */
  ghost predicate NotBetween(n: nat, leq: seq<seq<bool>>, a: nat, b: nat, x: nat)
    requires Square(leq, n) && a < n && b < n && x < n
  {
    leq[a][x] && leq[x][b] ==> x == a || x == b
  }

  /** b covers a: a < b with nothing strictly in between. */
  ghost predicate Covers(n: nat, leq: seq<seq<bool>>, a: nat, b: nat)
    requires Square(leq, n)
  {
    a < n && b < n && a != b && leq[a][b] &&
    forall x :: 0 <= x < n ==> NotBetween(n, leq, a, b, x)
  }

  /** children[b] lists a exactly when b covers a. */
  ghost predicate CoverAt(n: nat, leq: seq<seq<bool>>, children: seq<seq<nat>>, a: nat, b: nat)
    requires Square(leq, n) && |children| == n && a < n && b < n
  {
    a in children[b] <==> Covers(n, leq, a, b)
  }

  /** children[b] lists exactly the elements that b covers. */
  ghost predicate CoveringOf(n: nat, leq: seq<seq<bool>>, children: seq<seq<nat>>)
    requires Square(leq, n)
  {
    && |children| == n
    && Entries(children, n)
    && forall a, b :: 0 <= a < n && 0 <= b < n ==> CoverAt(n, leq, children, a, b)
  }

  ghost predicate Apart(t: seq<nat>, i: nat, j: nat)
    requires i < |t| && j < |t|
  {
    i != j ==> t[i] != t[j]
  }

  ghost predicate Listed(t: seq<nat>, v: nat) {
    v in t
  }

  /** t lists every element of 0..n-1 exactly once. */
  ghost predicate Perm(t: seq<nat>, n: nat) {
    && |t| == n
    && (forall i :: 0 <= i < |t| ==> t[i] < n)
    && (forall i, j :: 0 <= i < |t| && 0 <= j < |t| ==> Apart(t, i, j))
    && (forall v :: 0 <= v < n ==> Listed(t, v))
  }

  /** The element listed at j is not below the one listed at i. */
  ghost predicate NotBelowAt(n: nat, leq: seq<seq<bool>>, t: seq<nat>, i: nat, j: nat)
    requires Square(leq, n) && i < |t| && j < |t| && t[i] < n && t[j] < n
  {
    !leq[t[j]][t[i]]
  }

  /** No element is listed after something it is below (lattices.js:206). */
  ghost predicate BottomUp(n: nat, leq: seq<seq<bool>>, t: seq<nat>)
    requires Square(leq, n) && forall i :: 0 <= i < |t| ==> t[i] < n
  {
    forall i, j :: 0 <= i < j < |t| ==> NotBelowAt(n, leq, t, i, j)
  }

  /** No element is listed before something it is below. */
  ghost predicate TopDown(n: nat, leq: seq<seq<bool>>, t: seq<nat>)
    requires Square(leq, n) && forall i :: 0 <= i < |t| ==> t[i] < n
  {
    forall i, j :: 0 <= i < j < |t| ==> NotBelowAt(n, leq, t, j, i)
  }

  /** Total length of all the lists: the number of covering edges. */
  function EdgeCount(children: seq<seq<nat>>): nat {
    if children == [] then 0 else EdgeCount(children[..|children| - 1]) + |children[|children| - 1]|
  }

  /** The inverse and strict order tables at (a, b). */
  ghost predicate StrictAt(L: Lattice, a: nat, b: nat)
    requires Square(L.leq, L.n) && Square(L.geq, L.n) && Square(L.lt, L.n) && Square(L.gt, L.n)
    requires a < L.n && b < L.n
  {
    && L.geq[a][b] == L.leq[b][a]
    && L.lt[a][b] == (L.leq[a][b] && a != b)
    && L.gt[a][b] == (L.geq[a][b] && a != b)
  }

  /** The order relation, its strict and inverse variants and the join and meet tables. */
  ghost predicate Tables(L: Lattice) {
    var n := L.n;
    && n > 0 && PartialOrder(n, L.leq) && Square(L.leq, n)
    && Square(L.geq, n) && Square(L.lt, n) && Square(L.gt, n)
    && Square(L.lub, n) && Square(L.glb, n) && Entries(L.lub, n) && Entries(L.glb, n)
    && (forall a, b :: 0 <= a < n && 0 <= b < n ==> StrictAt(L, a, b))
    && (forall a, b :: 0 <= a < n && 0 <= b < n ==>
          IsLub(n, L.leq, a, b, L.lub[a][b]) && IsGlb(n, L.leq, a, b, L.glb[a][b]))
  }

  /** parents[a] lists b exactly when children[b] lists a, and so does the isChild table. */
  ghost predicate InverseAt(L: Lattice, a: nat, b: nat)
    requires |L.children| == L.n && |L.parents| == L.n && Square(L.isChild, L.n) && a < L.n && b < L.n
  {
    && (b in L.parents[a] <==> a in L.children[b])
    && (L.isChild[a][b] <==> a in L.children[b])
  }

  /** The covering relation in both directions, as lists and as a table, and its size. */
  ghost predicate Cover(L: Lattice)
    requires Tables(L)
  {
    var n := L.n;
    && CoveringOf(n, L.leq, L.children)
    && |L.parents| == n && Entries(L.parents, n)
    && Square(L.isChild, n)
    && (forall a, b :: 0 <= a < n && 0 <= b < n ==> InverseAt(L, a, b))
    && L.m == EdgeCount(L.children)
  }

  /** uncomparables lists the pair (a, b) exactly when a < b are incomparable. */
  ghost predicate UncomparableAt(L: Lattice, a: nat, b: nat)
    requires Square(L.leq, L.n)
  {
    (a, b) in L.uncomparables <==> a < b < L.n && !L.leq[a][b] && !L.leq[b][a]
  }

  /** top, bottom, the two topological orders and the incomparable pairs. */
  ghost predicate Extras(L: Lattice)
    requires Tables(L)
  {
    var n := L.n;
    && L.top < n && L.bottom < n
    && (forall x :: 0 <= x < n ==> L.leq[x][L.top] && L.leq[L.bottom][x])
    && Perm(L.topoDownUp, n) && BottomUp(n, L.leq, L.topoDownUp)
    && Perm(L.topoUpDown, n) && TopDown(n, L.leq, L.topoUpDown)
    && (forall a: nat, b: nat :: UncomparableAt(L, a, b))
  }

  ghost predicate Valid(L: Lattice) {
    Tables(L) && Cover(L) && Extras(L)
  }

  /** The one-element lattice. */
  const Singleton: Lattice :=
    Lattice(1, 0, 0, 0, [[true]], [[true]], [[false]], [[false]], [[false]], [[0]], [[0]],
      [[]], [[]], [0], [0], [])

  /** The lattices the constructor builds: every derived table is consistent with leq. */
  type ValidLattice = L: Lattice | Valid(L) witness Singleton

  // ---------------------------------------------------------------------
  // The order axioms, one instance at a time.

  lemma Trans(L: ValidLattice, a: nat, b: nat, c: nat)
    requires a < L.n && b < L.n && c < L.n && L.leq[a][b] && L.leq[b][c]
    ensures L.leq[a][c]
  {
    OrderTrans(L.n, L.leq, a, b, c);
  }

  lemma Antisym(L: ValidLattice, a: nat, b: nat)
    requires a < L.n && b < L.n && L.leq[a][b] && L.leq[b][a]
    ensures a == b
  {
    OrderAntisym(L.n, L.leq, a, b);
  }

  /** geq, lt and gt are the inverse and strict versions of leq. */
  lemma Strict(L: ValidLattice, a: nat, b: nat)
    requires a < L.n && b < L.n
    ensures L.geq[a][b] == L.leq[b][a]
    ensures L.lt[a][b] == (L.leq[a][b] && a != b)
    ensures L.gt[a][b] == (L.leq[b][a] && a != b)
  {
    assert StrictAt(L, a, b);
  }

  /** A listed pair is incomparable, and every incomparable pair a < b is listed. */
  lemma Uncomparable(L: ValidLattice, a: nat, b: nat)
    ensures (a, b) in L.uncomparables <==> a < b < L.n && !L.leq[a][b] && !L.leq[b][a]
  {
    assert UncomparableAt(L, a, b);
  }

  /** Two positions of a permutation hold different elements. */
  lemma PermApart(t: seq<nat>, n: nat, i: nat, j: nat)
    requires Perm(t, n) && i < |t| && j < |t| && i != j
    ensures t[i] != t[j]
  {
    assert Apart(t, i, j);
  }

  /** An element listed later in topoDownUp is not below one listed earlier. */
  lemma DownUpOrdered(L: ValidLattice, i: nat, j: nat)
    requires i < j < L.n
    ensures !L.leq[L.topoDownUp[j]][L.topoDownUp[i]]
  {
    assert NotBelowAt(L.n, L.leq, L.topoDownUp, i, j);
  }

  /** An element listed later in topoUpDown is not above one listed earlier. */
  lemma UpDownOrdered(L: ValidLattice, i: nat, j: nat)
    requires i < j < L.n
    ensures !L.leq[L.topoUpDown[i]][L.topoUpDown[j]]
  {
    assert NotBelowAt(L.n, L.leq, L.topoUpDown, j, i);
  }

  /** The children of b are the elements b covers. */
  lemma ChildIsCovered(L: ValidLattice, a: nat, b: nat)
    requires a < L.n && b < L.n
    ensures a in L.children[b] <==> Covers(L.n, L.leq, a, b)
    ensures b in L.parents[a] <==> a in L.children[b]
    ensures L.isChild[a][b] <==> a in L.children[b]
  {
    assert CoverAt(L.n, L.leq, L.children, a, b);
    assert InverseAt(L, a, b);
  }

  /** Nothing lies strictly between an element and one that covers it. */
  lemma CoversBetween(L: ValidLattice, a: nat, b: nat, x: nat)
    requires a < L.n && b < L.n && x < L.n && Covers(L.n, L.leq, a, b)
    requires L.leq[a][x] && L.leq[x][b]
    ensures x == a || x == b
  {
    assert NotBetween(L.n, L.leq, a, b, x);
  }

  // ---------------------------------------------------------------------
  // Facts about joins and meets in a valid lattice.

  /** The join of two elements is below every common upper bound. */
  lemma LubLeast(L: ValidLattice, a: nat, b: nat, x: nat)
    requires a < L.n && b < L.n && x < L.n
    requires L.leq[a][x] && L.leq[b][x]
    ensures L.leq[L.lub[a][b]][x]
  {
    assert IsLub(L.n, L.leq, a, b, L.lub[a][b]);
    assert UpperBoundAbove(L.n, L.leq, a, b, L.lub[a][b], x);
  }

  /** The meet of two elements is above every common lower bound. */
  lemma GlbGreatest(L: ValidLattice, a: nat, b: nat, x: nat)
    requires a < L.n && b < L.n && x < L.n
    requires L.leq[x][a] && L.leq[x][b]
    ensures L.leq[x][L.glb[a][b]]
  {
    assert IsGlb(L.n, L.leq, a, b, L.glb[a][b]);
    assert LowerBoundBelow(L.n, L.leq, a, b, L.glb[a][b], x);
  }

  lemma LubFacts(L: ValidLattice, a: nat, b: nat)
    requires a < L.n && b < L.n
    ensures L.lub[a][b] == L.lub[b][a] && L.glb[a][b] == L.glb[b][a]
    ensures L.lub[a][b] < L.n && L.glb[a][b] < L.n
    ensures L.leq[a][L.lub[a][b]] && L.leq[b][L.lub[a][b]]
    ensures L.leq[L.glb[a][b]][a] && L.leq[L.glb[a][b]][b]
    ensures L.leq[a][b] ==> L.lub[a][b] == b && L.glb[a][b] == a
    ensures L.leq[b][a] ==> L.lub[a][b] == a && L.glb[a][b] == b
  {
    var u, v := L.lub[a][b], L.lub[b][a];
    assert IsLub(L.n, L.leq, a, b, u) && IsLub(L.n, L.leq, b, a, v);
    LubLeast(L, a, b, v);
    LubLeast(L, b, a, u);
    Antisym(L, u, v);
    var p, q := L.glb[a][b], L.glb[b][a];
    assert IsGlb(L.n, L.leq, a, b, p) && IsGlb(L.n, L.leq, b, a, q);
    GlbGreatest(L, a, b, q);
    GlbGreatest(L, b, a, p);
    Antisym(L, p, q);
    if L.leq[a][b] {
      LubLeast(L, a, b, b);
      Antisym(L, u, b);
      GlbGreatest(L, a, b, a);
      Antisym(L, p, a);
    }
    if L.leq[b][a] {
      LubLeast(L, a, b, a);
      Antisym(L, u, a);
      GlbGreatest(L, a, b, b);
      Antisym(L, p, b);
    }
  }

  /** Joins are monotone in both arguments. */
  lemma LubMono(L: ValidLattice, a: nat, b: nat, a': nat, b': nat)
    requires a < L.n && b < L.n && a' < L.n && b' < L.n
    requires L.leq[a][a'] && L.leq[b][b']
    ensures L.leq[L.lub[a][b]][L.lub[a'][b']]
  {
    LubFacts(L, a', b');
    Trans(L, a, a', L.lub[a'][b']);
    Trans(L, b, b', L.lub[a'][b']);
    LubLeast(L, a, b, L.lub[a'][b']);
  }

  /** Meets are monotone in both arguments. */
  lemma GlbMono(L: ValidLattice, a: nat, b: nat, a': nat, b': nat)
    requires a < L.n && b < L.n && a' < L.n && b' < L.n
    requires L.leq[a][a'] && L.leq[b][b']
    ensures L.leq[L.glb[a][b]][L.glb[a'][b']]
  {
    LubFacts(L, a, b);
    Trans(L, L.glb[a][b], a, a');
    Trans(L, L.glb[a][b], b, b');
    GlbGreatest(L, a', b', L.glb[a][b]);
  }

  // ---------------------------------------------------------------------
  // The order axioms of a bare relation, and its transpose.

  lemma OrderTrans(n: nat, leq: seq<seq<bool>>, a: nat, b: nat, c: nat)
    requires PartialOrder(n, leq) && a < n && b < n && c < n && leq[a][b] && leq[b][c]
    ensures leq[a][c]
  {
    assert Transitive3(n, leq, a, b, c);
  }

  lemma OrderAntisym(n: nat, leq: seq<seq<bool>>, a: nat, b: nat)
    requires PartialOrder(n, leq) && a < n && b < n && leq[a][b] && leq[b][a]
    ensures a == b
  {
    assert Antisymmetric2(n, leq, a, b);
  }

  /** The inverse relation: the geq table of lattices.js:253-257. */
  function Transpose(n: nat, leq: seq<seq<bool>>): (t: seq<seq<bool>>)
    requires Square(leq, n)
    ensures Square(t, n) && forall a, b :: 0 <= a < n && 0 <= b < n ==> t[a][b] == leq[b][a]
  {
    seq(n, (a: int) requires 0 <= a < n => seq(n, (b: int) requires 0 <= b < n => leq[b][a]))
  }

  /** The inverse of a partial order is one, with cover and bounds turned round. */
  lemma TransposeOrder(n: nat, leq: seq<seq<bool>>)
    requires PartialOrder(n, leq)
    ensures PartialOrder(n, Transpose(n, leq))
    ensures forall a, b :: 0 <= a < n && 0 <= b < n ==> (Covers(n, Transpose(n, leq), b, a) <==> Covers(n, leq, a, b))
    ensures forall a, b, c: nat :: 0 <= a < n && 0 <= b < n ==>
      (IsGlb(n, Transpose(n, leq), a, b, c) <==> IsLub(n, leq, a, b, c)) &&
      (IsLub(n, Transpose(n, leq), a, b, c) <==> IsGlb(n, leq, a, b, c))
  {
    var t := Transpose(n, leq);
    forall a, b, c | 0 <= a < n && 0 <= b < n && 0 <= c < n ensures Transitive3(n, t, a, b, c) {
      assert Transitive3(n, leq, c, b, a);
    }
    forall a, b | 0 <= a < n && 0 <= b < n ensures Antisymmetric2(n, t, a, b) {
      assert Antisymmetric2(n, leq, a, b);
    }
    forall a, b | 0 <= a < n && 0 <= b < n ensures Covers(n, t, b, a) <==> Covers(n, leq, a, b) {
      if Covers(n, leq, a, b) {
        forall x | 0 <= x < n ensures NotBetween(n, t, b, a, x) {
          assert NotBetween(n, leq, a, b, x);
        }
      }
      if Covers(n, t, b, a) {
        forall x | 0 <= x < n ensures NotBetween(n, leq, a, b, x) {
          assert NotBetween(n, t, b, a, x);
        }
      }
    }
    forall a, b, c: nat | 0 <= a < n && 0 <= b < n
      ensures (IsGlb(n, t, a, b, c) <==> IsLub(n, leq, a, b, c)) && (IsLub(n, t, a, b, c) <==> IsGlb(n, leq, a, b, c))
    {
      if c < n {
        assert forall x :: 0 <= x < n ==> (LowerBoundBelow(n, t, a, b, c, x) <==> UpperBoundAbove(n, leq, a, b, c, x));
        assert forall x :: 0 <= x < n ==> (UpperBoundAbove(n, t, a, b, c, x) <==> LowerBoundBelow(n, leq, a, b, c, x));
      }
    }
  }

  /** The inverse of a lattice order is one. */
  lemma TransposeLattice(n: nat, leq: seq<seq<bool>>)
    requires LatticeOrder(n, leq)
    ensures LatticeOrder(n, Transpose(n, leq))
  {
    var t := Transpose(n, leq);
    TransposeOrder(n, leq);
    forall a, b | 0 <= a < n && 0 <= b < n ensures HasLub(n, t, a, b) && HasGlb(n, t, a, b) {
      assert HasLub(n, leq, a, b) && HasGlb(n, leq, a, b);
      var j :| IsLub(n, leq, a, b, j);
      var m :| IsGlb(n, leq, a, b, m);
      assert IsGlb(n, t, a, b, j) && IsLub(n, t, a, b, m);
    }
  }

  // ---------------------------------------------------------------------
  // Height: the number of elements below v. It strictly grows along the order,
  // which makes it the termination measure of every solver.

  ghost function CountUpTo(n: nat, leq: seq<seq<bool>>, v: nat, k: nat): (c: nat)
    requires Square(leq, n) && v < n && k <= n
    ensures c <= k
  {
    if k == 0 then 0 else CountUpTo(n, leq, v, k - 1) + (if leq[k - 1][v] then 1 else 0)
  }

  ghost function OrderHeight(n: nat, leq: seq<seq<bool>>, v: nat): nat
    requires Square(leq, n) && v < n
  {
    CountUpTo(n, leq, v, n)
  }

  lemma {:induction false} CountUpToMono(n: nat, leq: seq<seq<bool>>, u: nat, v: nat, k: nat)
    requires PartialOrder(n, leq) && u < n && v < n && k <= n && leq[u][v]
    ensures CountUpTo(n, leq, u, k) + (if u != v && v < k then 1 else 0) <= CountUpTo(n, leq, v, k)
  {
    if k > 0 {
      CountUpToMono(n, leq, u, v, k - 1);
      if leq[k - 1][u] {
        OrderTrans(n, leq, k - 1, u, v);
      }
      if k - 1 == v && u != v && leq[v][u] {
        OrderAntisym(n, leq, u, v);
      }
    }
  }

  /** Height is monotone, and strictly so between distinct comparable elements. */
  lemma OrderHeightMono(n: nat, leq: seq<seq<bool>>, u: nat, v: nat)
    requires PartialOrder(n, leq) && u < n && v < n && leq[u][v]
    ensures OrderHeight(n, leq, u) <= OrderHeight(n, leq, v) <= n
    ensures u != v ==> OrderHeight(n, leq, u) < OrderHeight(n, leq, v)
  {
    CountUpToMono(n, leq, u, v, n);
  }

  ghost function Height(L: ValidLattice, v: nat): nat
    requires v < L.n
  {
    OrderHeight(L.n, L.leq, v)
  }

  lemma HeightMono(L: ValidLattice, u: nat, v: nat)
    requires u < L.n && v < L.n && L.leq[u][v]
    ensures Height(L, u) <= Height(L, v) <= L.n
    ensures u != v ==> Height(L, u) < Height(L, v)
  {
    OrderHeightMono(L.n, L.leq, u, v);
  }

  // ---------------------------------------------------------------------
  // Every strict lower element of b lies below some element that b covers.

  /** Scanning 0..k-1, the last candidate that grew is maximal among a..b's interior. */
  ghost function MaxScan(n: nat, leq: seq<seq<bool>>, a: nat, b: nat, k: nat): (c: nat)
    requires PartialOrder(n, leq) && a < n && b < n && k <= n
    requires leq[a][b] && a != b
    ensures c < n && leq[a][c] && leq[c][b] && c != b
  {
    if k == 0 then a
    else
      var c := MaxScan(n, leq, a, b, k - 1);
      var x := k - 1;
      if leq[c][x] && leq[x][b] && x != b && x != c then
        OrderTrans(n, leq, a, c, x);
        x
      else c
  }

  lemma {:induction false} MaxScanGrows(n: nat, leq: seq<seq<bool>>, a: nat, b: nat, k: nat, k': nat)
    requires PartialOrder(n, leq) && a < n && b < n && k <= k' <= n
    requires leq[a][b] && a != b
    ensures leq[MaxScan(n, leq, a, b, k)][MaxScan(n, leq, a, b, k')]
  {
    if k' > k {
      MaxScanGrows(n, leq, a, b, k, k' - 1);
      var c := MaxScan(n, leq, a, b, k' - 1);
      var c0 := MaxScan(n, leq, a, b, k);
      assert leq[c][MaxScan(n, leq, a, b, k')];
      OrderTrans(n, leq, c0, c, MaxScan(n, leq, a, b, k'));
    }
  }

  lemma {:induction false} MaxScanMaximal(n: nat, leq: seq<seq<bool>>, a: nat, b: nat, x: nat)
    requires PartialOrder(n, leq) && a < n && b < n && x < n
    requires leq[a][b] && a != b
    requires leq[MaxScan(n, leq, a, b, n)][x] && leq[x][b] && x != b
    ensures x == MaxScan(n, leq, a, b, n)
  {
    var c := MaxScan(n, leq, a, b, n);
    var cx := MaxScan(n, leq, a, b, x);
    MaxScanGrows(n, leq, a, b, x, n);
    OrderTrans(n, leq, cx, c, x);
    if x != cx {
      assert MaxScan(n, leq, a, b, x + 1) == x;
      MaxScanGrows(n, leq, a, b, x + 1, n);
    }
    OrderAntisym(n, leq, x, c);
  }

  /** In a finite order, for a < b there is a c with a <= c that b covers. */
  lemma BelowSomeCover(n: nat, leq: seq<seq<bool>>, a: nat, b: nat) returns (c: nat)
    requires PartialOrder(n, leq) && a < n && b < n && leq[a][b] && a != b
    ensures Covers(n, leq, c, b) && leq[a][c]
  {
    c := MaxScan(n, leq, a, b, n);
    forall x | 0 <= x < n ensures NotBetween(n, leq, c, b, x) {
      if leq[c][x] && leq[x][b] && x != b {
        MaxScanMaximal(n, leq, a, b, x);
      }
    }
  }

  /** Dually, for a < b there is a c with c <= b that covers a. */
  lemma AboveSomeCover(n: nat, leq: seq<seq<bool>>, a: nat, b: nat) returns (c: nat)
    requires PartialOrder(n, leq) && a < n && b < n && leq[a][b] && a != b
    ensures Covers(n, leq, a, c) && leq[c][b]
  {
    TransposeOrder(n, leq);
    c := BelowSomeCover(n, Transpose(n, leq), b, a);
  }

  /** For a < b there is a c with a <= c that b covers. */
  lemma BelowSomeChild(L: ValidLattice, a: nat, b: nat) returns (c: nat)
    requires a < L.n && b < L.n && L.leq[a][b] && a != b
    ensures c < L.n && c in L.children[b] && L.leq[a][c]
  {
    c := BelowSomeCover(L.n, L.leq, a, b);
    ChildIsCovered(L, c, b);
  }

  /** The position at which a permutation lists v. */
  lemma IndexOf(t: seq<nat>, n: nat, v: nat) returns (i: nat)
    requires Perm(t, n) && v < n
    ensures i < |t| && t[i] == v
  {
    assert Listed(t, v);
    i :| 0 <= i < |t| && t[i] == v;
  }
}
