/**
 * The generators of utilsChildren (lattices.js:55-116): children lists of
 * lattices built by doubling (the product with a two-element chain), by
 * inserting new elements into a covering edge, and by a seeded random mix of
 * the two. Each construction is shown to produce the covering relation of a
 * lattice order.
 */
module Generators {
  import opened Utils
  import opened Lattices
  import opened Rng

  /** children is the covering relation of the lattice order leq. */
  ghost predicate CoveringLattice(children: seq<seq<nat>>, leq: seq<seq<bool>>) {
    LatticeOrder(|children|, leq) && CoveringOf(|children|, leq, children)
  }

  /** children is the covering relation of some lattice order on its elements. */
  ghost predicate LatticeCovering(children: seq<seq<nat>>) {
    exists leq :: CoveringLattice(children, leq)
  }

  // ---------------------------------------------------------------------
  // Doubling (lattices.js:66-71).

  /** Every entry of s moved up by d. */
  function Shift(s: seq<nat>, d: nat): (r: seq<nat>)
    ensures |r| == |s| && forall i :: 0 <= i < |s| ==> r[i] == s[i] + d
  {
    seq(|s|, (i: int) requires 0 <= i < |s| => s[i] + d)
  }

  /** List n + x of the doubled relation: x, and the list of x moved up by n. */
  function UpperList(children: seq<seq<nat>>, x: nat): (r: seq<nat>)
    requires x < |children|
  {
    [x] + Shift(children[x], |children|)
  }

  /**
   * lattices.js:66-71: the first n lists are kept, and list n + x holds x and
   * the list of x moved up by n.
   */
  function TwiceChildren(children: seq<seq<nat>>): (r: seq<seq<nat>>)
    ensures |r| == 2 * |children|
    ensures forall x :: 0 <= x < |children| ==> r[x] == children[x] && r[|children| + x] == UpperList(children, x)
  {
    var n := |children|;
    seq(2 * n, (x: int) requires 0 <= x < 2 * n => if x < n then children[x] else UpperList(children, x - n))
  }

  lemma TwiceEntries(children: seq<seq<nat>>)
    requires Entries(children, |children|)
    ensures Entries(TwiceChildren(children), 2 * |children|)
  {
    var n := |children|;
    var r := TwiceChildren(children);
    forall i, j | 0 <= i < |r| && 0 <= j < |r[i]| ensures r[i][j] < 2 * n {
      if i >= n {
        assert r[i] == UpperList(children, i - n);
        if j > 0 {
          assert r[i][j] == children[i - n][j - 1] + n;
        }
      }
    }
  }

  /** The element of the original lattice that x stands for. */
  function Low(x: nat, n: nat): nat {
    if x < n then x else x - n
  }

  /** The product of the order with the chain 0 < 1: x < n is (x, 0) and n + x is (x, 1). */
  ghost function TwiceOrder(n: nat, leq: seq<seq<bool>>): (t: seq<seq<bool>>)
    requires Square(leq, n)
    ensures Square(t, 2 * n)
    ensures forall a, b :: 0 <= a < 2 * n && 0 <= b < 2 * n ==> t[a][b] == (leq[Low(a, n)][Low(b, n)] && (a >= n ==> b >= n))
  {
    seq(2 * n, (a: int) requires 0 <= a < 2 * n =>
      seq(2 * n, (b: int) requires 0 <= b < 2 * n => leq[Low(a, n)][Low(b, n)] && (a >= n ==> b >= n)))
  }

  lemma TwicePartialOrder(n: nat, leq: seq<seq<bool>>)
    requires PartialOrder(n, leq)
    ensures PartialOrder(2 * n, TwiceOrder(n, leq))
  {
    var t := TwiceOrder(n, leq);
    forall a, b | 0 <= a < 2 * n && 0 <= b < 2 * n ensures Antisymmetric2(2 * n, t, a, b) {
      if t[a][b] && t[b][a] {
        OrderAntisym(n, leq, Low(a, n), Low(b, n));
      }
    }
    forall a, b, c | 0 <= a < 2 * n && 0 <= b < 2 * n && 0 <= c < 2 * n ensures Transitive3(2 * n, t, a, b, c) {
      if t[a][b] && t[b][c] {
        OrderTrans(n, leq, Low(a, n), Low(b, n), Low(c, n));
      }
    }
  }

  /** Joins and meets of the product are taken componentwise. */
  lemma TwiceBounds(n: nat, leq: seq<seq<bool>>, a: nat, b: nat)
    requires LatticeOrder(n, leq) && a < 2 * n && b < 2 * n
    ensures HasLub(2 * n, TwiceOrder(n, leq), a, b) && HasGlb(2 * n, TwiceOrder(n, leq), a, b)
  {
    var t := TwiceOrder(n, leq);
    var la, lb := Low(a, n), Low(b, n);
    assert HasLub(n, leq, la, lb) && HasGlb(n, leq, la, lb);
    var j :| IsLub(n, leq, la, lb, j);
    var m :| IsGlb(n, leq, la, lb, m);
    var c := if a >= n || b >= n then n + j else j;
    var d := if a >= n && b >= n then n + m else m;
    forall x | 0 <= x < 2 * n ensures UpperBoundAbove(2 * n, t, a, b, c, x) && LowerBoundBelow(2 * n, t, a, b, d, x) {
      assert UpperBoundAbove(n, leq, la, lb, j, Low(x, n));
      assert LowerBoundBelow(n, leq, la, lb, m, Low(x, n));
    }
    assert IsLub(2 * n, t, a, b, c);
    assert IsGlb(2 * n, t, a, b, d);
  }

  lemma TwiceLattice(n: nat, leq: seq<seq<bool>>)
    requires LatticeOrder(n, leq)
    ensures LatticeOrder(2 * n, TwiceOrder(n, leq))
  {
    TwicePartialOrder(n, leq);
    forall a, b | 0 <= a < 2 * n && 0 <= b < 2 * n
      ensures HasLub(2 * n, TwiceOrder(n, leq), a, b) && HasGlb(2 * n, TwiceOrder(n, leq), a, b)
    {
      TwiceBounds(n, leq, a, b);
    }
  }

  /** Within the lower copy, covering is as in the original; nothing in the upper copy is below it. */
  lemma LowerCoverAt(n: nat, leq: seq<seq<bool>>, children: seq<seq<nat>>, a: nat, b: nat)
    requires PartialOrder(n, leq) && CoveringOf(n, leq, children) && a < 2 * n && b < n
    ensures CoverAt(2 * n, TwiceOrder(n, leq), TwiceChildren(children), a, b)
  {
    var t := TwiceOrder(n, leq);
    var r := TwiceChildren(children);
    assert r[b] == children[b];
    if a < n {
      assert CoverAt(n, leq, children, a, b);
      if Covers(n, leq, a, b) {
        forall x | 0 <= x < 2 * n ensures NotBetween(2 * n, t, a, b, x) {
          if x < n {
            assert NotBetween(n, leq, a, b, x);
          }
        }
      }
      if Covers(2 * n, t, a, b) {
        forall x | 0 <= x < n ensures NotBetween(n, leq, a, b, x) {
          assert NotBetween(2 * n, t, a, b, x);
        }
      }
    } else {
      assert !t[a][b];
      assert forall k :: 0 <= k < |children[b]| ==> children[b][k] < n;
      assert a !in children[b];
    }
  }

  /** (x, 1) covers (y, 0) exactly when y is x. */
  lemma CrossCoverAt(n: nat, leq: seq<seq<bool>>, children: seq<seq<nat>>, a: nat, b: nat)
    requires PartialOrder(n, leq) && CoveringOf(n, leq, children) && a < n <= b < 2 * n
    ensures CoverAt(2 * n, TwiceOrder(n, leq), TwiceChildren(children), a, b)
  {
    var t := TwiceOrder(n, leq);
    var r := TwiceChildren(children);
    var lb := b - n;
    assert r[b] == [lb] + Shift(children[lb], n);
    if a == lb {
      forall x | 0 <= x < 2 * n ensures NotBetween(2 * n, t, a, b, x) {
        if t[a][x] && t[x][b] {
          OrderAntisym(n, leq, lb, Low(x, n));
        }
      }
      assert r[b][0] == a;
    } else {
      if t[a][b] {
        assert !NotBetween(2 * n, t, a, b, lb);
      }
      ShiftIn(children[lb], n, a);
      assert a !in r[b];
    }
  }

  /** v is in the shifted list exactly when v - d is in the original. */
  lemma ShiftIn(s: seq<nat>, d: nat, v: nat)
    ensures v in Shift(s, d) <==> v >= d && v - d in s
  {
    var r := Shift(s, d);
    if v in r {
      var k :| 0 <= k < |r| && r[k] == v;
      assert s[k] == v - d;
    }
    if v >= d && v - d in s {
      var k :| 0 <= k < |s| && s[k] == v - d;
      assert r[k] == v;
    }
  }

  /** The upper copy has the same pairs strictly between as the original. */
  lemma UpperCovers(n: nat, leq: seq<seq<bool>>, a: nat, b: nat)
    requires PartialOrder(n, leq) && n <= a < 2 * n && n <= b < 2 * n
    ensures Covers(2 * n, TwiceOrder(n, leq), a, b) <==> Covers(n, leq, a - n, b - n)
  {
    var t := TwiceOrder(n, leq);
    var la, lb := a - n, b - n;
    if Covers(n, leq, la, lb) {
      forall x | 0 <= x < 2 * n ensures NotBetween(2 * n, t, a, b, x) {
        if x >= n {
          assert NotBetween(n, leq, la, lb, x - n);
        }
      }
    }
    if Covers(2 * n, t, a, b) {
      forall y | 0 <= y < n ensures NotBetween(n, leq, la, lb, y) {
        assert NotBetween(2 * n, t, a, b, n + y);
      }
    }
  }

  /** Within the upper copy, covering is as in the original. */
  lemma UpperCoverAt(n: nat, leq: seq<seq<bool>>, children: seq<seq<nat>>, a: nat, b: nat)
    requires PartialOrder(n, leq) && CoveringOf(n, leq, children) && n <= a < 2 * n && n <= b < 2 * n
    ensures CoverAt(2 * n, TwiceOrder(n, leq), TwiceChildren(children), a, b)
  {
    var r := TwiceChildren(children);
    var la, lb := a - n, b - n;
    assert r[b] == [lb] + Shift(children[lb], n);
    assert CoverAt(n, leq, children, la, lb);
    UpperCovers(n, leq, a, b);
    ShiftIn(children[lb], n, a);
    assert a in r[b] <==> a in Shift(children[lb], n);
  }

  /**
   * Doubling the covering relation of a lattice gives the covering relation of
   * its product with the two-element chain, again a lattice.
   */
  lemma TwiceCovering(n: nat, leq: seq<seq<bool>>, children: seq<seq<nat>>)
    requires LatticeOrder(n, leq) && CoveringOf(n, leq, children)
    ensures LatticeOrder(2 * n, TwiceOrder(n, leq))
    ensures CoveringOf(2 * n, TwiceOrder(n, leq), TwiceChildren(children))
  {
    TwiceLattice(n, leq);
    TwiceEntries(children);
    forall a, b | 0 <= a < 2 * n && 0 <= b < 2 * n
      ensures CoverAt(2 * n, TwiceOrder(n, leq), TwiceChildren(children), a, b)
    {
      if b < n {
        LowerCoverAt(n, leq, children, a, b);
      } else if a < n {
        CrossCoverAt(n, leq, children, a, b);
      } else {
        UpperCoverAt(n, leq, children, a, b);
      }
    }
  }

  // ---------------------------------------------------------------------
  // The Boolean lattice (lattices.js:56-63).

  /**
   * The bits of a are a subset of the bits of b, for a, b below 2^k: compare the
   * top bits, then the rest.
   */
  ghost predicate BitsBelow(k: nat, a: nat, b: nat) {
    if k == 0 then true
    else
      var h := Pow2(k - 1);
      (a >= h ==> b >= h) && BitsBelow(k - 1, Low(a, h), Low(b, h))
  }

  /** The subset order on the subsets of k bits. */
  ghost function SubsetOrder(k: nat): (t: seq<seq<bool>>)
    ensures Square(t, Pow2(k)) && forall a, b :: 0 <= a < Pow2(k) && 0 <= b < Pow2(k) ==> t[a][b] == BitsBelow(k, a, b)
  {
    seq(Pow2(k), (a: int) requires 0 <= a < Pow2(k) => seq(Pow2(k), (b: int) requires 0 <= b < Pow2(k) => BitsBelow(k, a, b)))
  }

  /** The children lists after k doublings of the one-element lattice. */
  function PowersetChildren(k: nat): (r: seq<seq<nat>>)
    ensures |r| == Pow2(k)
  {
    if k == 0 then [[]] else TwiceChildren(PowersetChildren(k - 1))
  }

  /** Adding a top bit is doubling. */
  lemma SubsetTwice(k: nat)
    ensures SubsetOrder(k + 1) == TwiceOrder(Pow2(k), SubsetOrder(k))
  {
    var t, u := SubsetOrder(k + 1), TwiceOrder(Pow2(k), SubsetOrder(k));
    forall a | 0 <= a < Pow2(k + 1) ensures t[a] == u[a] {
      forall b | 0 <= b < Pow2(k + 1) ensures t[a][b] == u[a][b] {
      }
    }
  }

  /** The one-element lattice has no covering pairs. */
  lemma SingletonCovering()
    ensures LatticeOrder(1, SubsetOrder(0)) && CoveringOf(1, SubsetOrder(0), [[]])
  {
    var t := SubsetOrder(0);
    assert t[0][0];
    assert IsLub(1, t, 0, 0, 0) && IsGlb(1, t, 0, 0, 0);
  }

  /** powerset(k) is the covering relation of the subset lattice of k bits, with 2^k elements. */
  lemma {:induction false} PowersetLattice(k: nat)
    ensures |PowersetChildren(k)| == Pow2(k)
    ensures LatticeOrder(Pow2(k), SubsetOrder(k))
    ensures CoveringOf(Pow2(k), SubsetOrder(k), PowersetChildren(k))
  {
    if k == 0 {
      SingletonCovering();
      assert Pow2(k) == 1 && PowersetChildren(k) == [[]];
    } else {
      PowersetLattice(k - 1);
      var n, t, c := Pow2(k - 1), SubsetOrder(k - 1), PowersetChildren(k - 1);
      SubsetTwice(k - 1);
      TwiceCovering(n, t, c);
      assert Pow2(k) == 2 * n && SubsetOrder(k) == TwiceOrder(n, t) && PowersetChildren(k) == TwiceChildren(c);
    }
  }

  lemma {:induction false} Pow2Less(i: nat, j: nat)
    requires i < j
    ensures Pow2(i) < Pow2(j)
  {
    if i < j - 1 {
      Pow2Less(i, j - 1);
    }
  }

  /**
   * lattices.js:56-63: n is the 32-bit `1 << log2n`; doubling stops once there are
   * n lists, and the final check fails when the shift made n negative.
   */
  method Powerset(log2n: int) returns (r: Result<seq<seq<nat>>>)
    ensures r.Success? <==> log2n % 32 != 31
    ensures r.Success? ==> r.value == PowersetChildren(log2n % 32) && |r.value| == Pow2(log2n % 32)
  {
    var n := Shl1(log2n);
    var children: seq<seq<nat>> := [[]];
    ghost var s := log2n % 32;
    ghost var j: nat := 0;
    while |children| < n
      invariant children == PowersetChildren(j) && |children| == Pow2(j)
      invariant s != 31 ==> j <= s
      decreases n - |children|
    {
      if s != 31 && j == s {
        assert false;
      }
      children := TwiceChildren(children);
      j := j + 1;
    }
    if s != 31 && j < s {
      Pow2Less(j, s);
    }
    if |children| != n {
      return Failure("powerset: size is not a power of two");
    }
    return Success(children);
  }

  // ---------------------------------------------------------------------
  // Picking an edge (lattices.js:74-85).

  /** The position i steps after s, going round n positions one at a time. */
  function Wrap(s: nat, i: nat, n: nat): nat {
    if i == 0 then s
    else
      var p := Wrap(s, i - 1, n);
      if p + 1 >= n then 0 else p + 1
  }

  lemma {:induction false} WrapValue(s: nat, i: nat, n: nat)
    requires s < n && i < n
    ensures Wrap(s, i, n) == if s + i < n then s + i else s + i - n
  {
    if i > 0 {
      WrapValue(s, i - 1, n);
    }
  }

  /** JavaScript's (b + 1) % n for a position b: the next position round n. */
  function Succ(b: nat, n: nat): (r: nat)
    requires b < n
    ensures r == if b + 1 < n then b + 1 else 0
  {
    (b + 1) % n
  }

  /** Every position is reached from s within n steps. */
  lemma WrapReaches(s: nat, x: nat, n: nat) returns (i: nat)
    requires s < n && x < n
    ensures i < n && Wrap(s, i, n) == x
  {
    i := if x >= s then x - s else x + n - s;
    WrapValue(s, i, n);
  }

  /**
   * lattices.js:74-85 with the start given: fails on fewer than two nodes, then
   * walks round from start % n to the first node with a non-empty list (failing
   * when there is none) and returns its first child with it.
   */
  method RandomEdge(children: seq<seq<nat>>, start: nat) returns (r: Result<(nat, nat)>)
    ensures r.Failure? <==> |children| <= 1 || forall x :: 0 <= x < |children| ==> children[x] == []
    ensures r.Success? ==> r.value.1 < |children| && children[r.value.1] != [] && r.value.0 == children[r.value.1][0]
    ensures r.Success? ==> exists d :: (0 <= d < |children| && r.value.1 == Wrap(start % |children|, d, |children|) &&
      forall i :: 0 <= i < d ==> children[Wrap(start % |children|, i, |children|)] == [])
  {
    var n := |children|;
    if n <= 1 {
      return Failure("Can not add edge to a single node lattice");
    }
    var s := start % n;
    var b := s;
    var budget := n + 2;
    ghost var steps: nat := 0;
    while budget != 0 && children[b] == []
      invariant b < n && b == Wrap(s, steps, n) && budget + steps == n + 2
      invariant forall i :: 0 <= i < steps ==> children[Wrap(s, i, n)] == []
    {
      b := Succ(b, n);
      budget := budget - 1;
      steps := steps + 1;
    }
    if budget == 0 {
      forall x | 0 <= x < n ensures children[x] == [] {
        var i := WrapReaches(s, x, n);
      }
      return Failure("Impossible");
    }
    ghost var i := WrapReaches(s, b, n);
    assert steps <= i;
    return Success((children[b][0], b));
  }

  // ---------------------------------------------------------------------
  // Inserting new elements into a covering edge (lattices.js:87-94).

  /** JavaScript's filter(x => x != a). */
  function RemoveAll(s: seq<nat>, a: nat): (r: seq<nat>)
    ensures |r| <= |s| && forall v :: v in r <==> v in s && v != a
  {
    if s == [] then [] else (if s[0] == a then [] else [s[0]]) + RemoveAll(s[1..], a)
  }

  /**
   * lattices.js:87-94: k new nodes n..n+k-1 with a as their only child are
   * appended, a is dropped from list b and the new nodes are appended to it.
   */
  function AddNodesBetween(children: seq<seq<nat>>, a: nat, b: nat, k: nat): (r: seq<seq<nat>>)
    requires b < |children| + k
    ensures |r| == |children| + k
    ensures forall x :: 0 <= x < |children| && x != b ==> r[x] == children[x]
    ensures forall x :: |children| <= x < |children| + k && x != b ==> r[x] == [a]
    ensures forall v :: v in r[b] <==> (b < |children| && v in children[b] && v != a) || |children| <= v < |children| + k
    ensures |r[b]| >= k && r[b][|r[b]| - k..] == Shift(Range(k), |children|)
  {
    var n := |children|;
    var out := children + seq(k, (_: int) => [a]);
    var added := Shift(Range(k), n);
    forall v: nat ensures v in added <==> n <= v < n + k {
      ShiftIn(Range(k), n, v);
      if n <= v < n + k {
        assert Range(k)[v - n] == v - n;
      }
    }
    out[b := RemoveAll(out[b], a) + added]
  }

  /** The order with k new elements put between a and b. */
  ghost predicate BetweenLeq(n: nat, leq: seq<seq<bool>>, a: nat, b: nat, x: nat, y: nat)
    requires Square(leq, n) && a < n && b < n
  {
    if x < n && y < n then leq[x][y]
    else if x < n then leq[x][a]
    else if y < n then leq[b][y]
    else x == y
  }

  ghost function BetweenOrder(n: nat, leq: seq<seq<bool>>, a: nat, b: nat, k: nat): (t: seq<seq<bool>>)
    requires Square(leq, n) && a < n && b < n
    ensures Square(t, n + k)
    ensures forall x, y :: 0 <= x < n + k && 0 <= y < n + k ==> t[x][y] == BetweenLeq(n, leq, a, b, x, y)
  {
    seq(n + k, (x: int) requires 0 <= x < n + k =>
      seq(n + k, (y: int) requires 0 <= y < n + k => BetweenLeq(n, leq, a, b, x, y)))
  }

  lemma BetweenPartialOrder(n: nat, leq: seq<seq<bool>>, a: nat, b: nat, k: nat)
    requires PartialOrder(n, leq) && a < n && b < n && a != b && leq[a][b]
    ensures PartialOrder(n + k, BetweenOrder(n, leq, a, b, k))
  {
    var t := BetweenOrder(n, leq, a, b, k);
    var m := n + k;
    forall x, y | 0 <= x < m && 0 <= y < m ensures Antisymmetric2(m, t, x, y) {
      if t[x][y] && t[y][x] {
        if x < n && y < n {
          OrderAntisym(n, leq, x, y);
        } else if x < n || y < n {
          var o := if x < n then x else y;
          OrderTrans(n, leq, b, o, a);
          OrderAntisym(n, leq, a, b);
        }
      }
    }
    forall x, y, z | 0 <= x < m && 0 <= y < m && 0 <= z < m ensures Transitive3(m, t, x, y, z) {
      if t[x][y] && t[y][z] {
        if x < n && y < n && z < n {
          OrderTrans(n, leq, x, y, z);
        } else if x < n && y < n {
          OrderTrans(n, leq, x, y, a);
        } else if x < n && z < n {
          OrderTrans(n, leq, x, a, b);
          OrderTrans(n, leq, x, b, z);
        } else if y < n && z < n {
          OrderTrans(n, leq, b, y, z);
        } else if y < n {
          OrderTrans(n, leq, b, y, a);
          OrderAntisym(n, leq, a, b);
        }
      }
    }
  }

  /** Two old elements keep their join. */
  lemma BetweenLubOld(n: nat, leq: seq<seq<bool>>, a: nat, b: nat, k: nat, x: nat, y: nat)
    requires LatticeOrder(n, leq) && a < n && b < n && x < n && y < n
    ensures HasLub(n + k, BetweenOrder(n, leq, a, b, k), x, y)
  {
    var t, m := BetweenOrder(n, leq, a, b, k), n + k;
    assert HasLub(n, leq, x, y);
    var j :| IsLub(n, leq, x, y, j);
    forall u | 0 <= u < m ensures UpperBoundAbove(m, t, x, y, j, u) {
      assert UpperBoundAbove(n, leq, x, y, j, if u < n then u else a);
    }
    assert IsLub(m, t, x, y, j);
  }

  /** An old x and a new v join at v when x <= a, and at the join of x and b otherwise. */
  lemma BetweenLubMixed(n: nat, leq: seq<seq<bool>>, a: nat, b: nat, k: nat, x: nat, v: nat)
    requires LatticeOrder(n, leq) && a < n && b < n && x < n <= v < n + k
    ensures HasLub(n + k, BetweenOrder(n, leq, a, b, k), x, v)
    ensures HasLub(n + k, BetweenOrder(n, leq, a, b, k), v, x)
  {
    var t, m := BetweenOrder(n, leq, a, b, k), n + k;
    if leq[x][a] {
      assert IsLub(m, t, x, v, v) && IsLub(m, t, v, x, v);
    } else {
      assert HasLub(n, leq, x, b);
      var j :| IsLub(n, leq, x, b, j);
      forall u | 0 <= u < m ensures UpperBoundAbove(m, t, x, v, j, u) && UpperBoundAbove(m, t, v, x, j, u) {
        if u < n {
          assert UpperBoundAbove(n, leq, x, b, j, u);
        }
      }
      assert IsLub(m, t, x, v, j) && IsLub(m, t, v, x, j);
    }
  }

  /** Two distinct new elements join at b. */
  lemma BetweenLubNew(n: nat, leq: seq<seq<bool>>, a: nat, b: nat, k: nat, v: nat, w: nat)
    requires PartialOrder(n, leq) && a < n && b < n && n <= v < n + k && n <= w < n + k
    ensures HasLub(n + k, BetweenOrder(n, leq, a, b, k), v, w)
  {
    var t := BetweenOrder(n, leq, a, b, k);
    if v == w {
      assert IsLub(n + k, t, v, w, v);
    } else {
      assert IsLub(n + k, t, v, w, b);
    }
  }

  lemma BetweenLub(n: nat, leq: seq<seq<bool>>, a: nat, b: nat, k: nat, x: nat, y: nat)
    requires LatticeOrder(n, leq) && a < n && b < n && x < n + k && y < n + k
    ensures HasLub(n + k, BetweenOrder(n, leq, a, b, k), x, y)
  {
    if x < n && y < n {
      BetweenLubOld(n, leq, a, b, k, x, y);
    } else if x < n {
      BetweenLubMixed(n, leq, a, b, k, x, y);
    } else if y < n {
      BetweenLubMixed(n, leq, a, b, k, y, x);
    } else {
      BetweenLubNew(n, leq, a, b, k, x, y);
    }
  }

  /** Turning the order round turns the insertion between a and b into one between b and a. */
  lemma BetweenTranspose(n: nat, leq: seq<seq<bool>>, a: nat, b: nat, k: nat)
    requires Square(leq, n) && a < n && b < n
    ensures Transpose(n + k, BetweenOrder(n, leq, a, b, k)) == BetweenOrder(n, Transpose(n, leq), b, a, k)
  {
    var t, u := Transpose(n + k, BetweenOrder(n, leq, a, b, k)), BetweenOrder(n, Transpose(n, leq), b, a, k);
    forall x | 0 <= x < n + k ensures t[x] == u[x] {
      forall y | 0 <= y < n + k ensures t[x][y] == u[x][y] {
      }
    }
  }

  /** Inserting k elements in a covering edge of a lattice gives a lattice. */
  lemma BetweenLattice(n: nat, leq: seq<seq<bool>>, a: nat, b: nat, k: nat)
    requires LatticeOrder(n, leq) && a < n && b < n && a != b && leq[a][b]
    ensures LatticeOrder(n + k, BetweenOrder(n, leq, a, b, k))
  {
    var t := BetweenOrder(n, leq, a, b, k);
    var m := n + k;
    BetweenPartialOrder(n, leq, a, b, k);
    TransposeOrder(m, t);
    TransposeLattice(n, leq);
    BetweenTranspose(n, leq, a, b, k);
    var tt := Transpose(m, t);
    forall x, y | 0 <= x < m && 0 <= y < m ensures HasLub(m, t, x, y) && HasGlb(m, t, x, y) {
      BetweenLub(n, leq, a, b, k, x, y);
      BetweenLub(n, Transpose(n, leq), b, a, k, x, y);
      var c :| IsLub(m, tt, x, y, c);
      assert IsGlb(m, t, x, y, c);
    }
  }

  /** Elements of a list of a covering relation are old elements. */
  lemma ChildOld(n: nat, children: seq<seq<nat>>, y: nat, x: nat)
    requires |children| == n && Entries(children, n) && y < n && x in children[y]
    ensures x < n
  {
    var j :| 0 <= j < |children[y]| && children[y][j] == x;
  }

  /** No covering pair x-y other than a-b has x <= a and b <= y. */
  lemma CoverExcludes(n: nat, leq: seq<seq<bool>>, x: nat, y: nat, a: nat, b: nat)
    requires PartialOrder(n, leq) && Covers(n, leq, x, y) && Covers(n, leq, a, b) && (x != a || y != b)
    ensures !(leq[x][a] && leq[b][y])
  {
    assert NotBetween(n, leq, x, y, a) && NotBetween(n, leq, x, y, b);
    assert Transitive3(n, leq, a, b, y) && Transitive3(n, leq, x, a, b);
    assert Antisymmetric2(n, leq, a, b) && Antisymmetric2(n, leq, x, y);
  }

  /** Below an old element other than b, the relation keeps its old cover. */
  lemma BetweenCoverOld(n: nat, leq: seq<seq<bool>>, children: seq<seq<nat>>, a: nat, b: nat, k: nat, x: nat, y: nat)
    requires PartialOrder(n, leq) && CoveringOf(n, leq, children) && Covers(n, leq, a, b)
    requires x < n + k && y < n && y != b
    ensures CoverAt(n + k, BetweenOrder(n, leq, a, b, k), AddNodesBetween(children, a, b, k), x, y)
  {
    var t, m := BetweenOrder(n, leq, a, b, k), n + k;
    assert AddNodesBetween(children, a, b, k)[y] == children[y];
    if x < n {
      assert CoverAt(n, leq, children, x, y);
      if Covers(n, leq, x, y) {
        forall z | 0 <= z < m ensures NotBetween(m, t, x, y, z) {
          if z < n {
            assert NotBetween(n, leq, x, y, z);
          } else {
            CoverExcludes(n, leq, x, y, a, b);
          }
        }
      }
      if Covers(m, t, x, y) {
        forall z | 0 <= z < n ensures NotBetween(n, leq, x, y, z) {
          assert NotBetween(m, t, x, y, z);
        }
      }
    } else {
      if x in children[y] {
        ChildOld(n, children, y, x);
      }
      if t[x][y] {
        assert !NotBetween(m, t, x, y, b);
      }
    }
  }

  /** An old x other than a is covered by b in both orders or in neither. */
  lemma BetweenCoversB(n: nat, leq: seq<seq<bool>>, a: nat, b: nat, k: nat, x: nat)
    requires PartialOrder(n, leq) && Covers(n, leq, a, b) && x < n && x != a
    ensures Covers(n + k, BetweenOrder(n, leq, a, b, k), x, b) <==> Covers(n, leq, x, b)
  {
    var t, m := BetweenOrder(n, leq, a, b, k), n + k;
    if Covers(n, leq, x, b) {
      CoverExcludes(n, leq, x, b, a, b);
      forall z | 0 <= z < m ensures NotBetween(m, t, x, b, z) {
        if z < n {
          assert NotBetween(n, leq, x, b, z);
        }
      }
    }
    if Covers(m, t, x, b) {
      forall z | 0 <= z < n ensures NotBetween(n, leq, x, b, z) {
        assert NotBetween(m, t, x, b, z);
      }
    }
  }

  /** Below b: the new elements replace a. */
  lemma BetweenCoverB(n: nat, leq: seq<seq<bool>>, children: seq<seq<nat>>, a: nat, b: nat, k: nat, x: nat)
    requires PartialOrder(n, leq) && CoveringOf(n, leq, children) && Covers(n, leq, a, b) && k >= 1
    requires x < n + k
    ensures CoverAt(n + k, BetweenOrder(n, leq, a, b, k), AddNodesBetween(children, a, b, k), x, b)
  {
    var t, m := BetweenOrder(n, leq, a, b, k), n + k;
    var r := AddNodesBetween(children, a, b, k);
    if x == a {
      assert !NotBetween(m, t, a, b, n);
    } else if x < n {
      BetweenCoversB(n, leq, a, b, k, x);
      assert CoverAt(n, leq, children, x, b);
    } else {
      forall z | 0 <= z < m ensures NotBetween(m, t, x, b, z) {
        if z < n && t[x][z] && t[z][b] {
          OrderAntisym(n, leq, z, b);
        }
      }
    }
  }

  /** Below a new element: exactly a. */
  lemma BetweenCoverNew(n: nat, leq: seq<seq<bool>>, children: seq<seq<nat>>, a: nat, b: nat, k: nat, x: nat, y: nat)
    requires PartialOrder(n, leq) && CoveringOf(n, leq, children) && Covers(n, leq, a, b)
    requires x < n + k && n <= y < n + k
    ensures CoverAt(n + k, BetweenOrder(n, leq, a, b, k), AddNodesBetween(children, a, b, k), x, y)
  {
    var t, m := BetweenOrder(n, leq, a, b, k), n + k;
    assert AddNodesBetween(children, a, b, k)[y] == [a];
    if x == a {
      forall z | 0 <= z < m ensures NotBetween(m, t, a, y, z) {
        if z < n && t[a][z] && t[z][y] {
          OrderAntisym(n, leq, z, a);
        }
      }
    } else if x < n && leq[x][a] {
      assert !NotBetween(m, t, x, y, a);
    }
  }

  /**
   * addNodesBetween on a covering edge a-b of a lattice gives the covering
   * relation of the lattice with k new elements placed between a and b.
   */
  lemma AddNodesCovering(n: nat, leq: seq<seq<bool>>, children: seq<seq<nat>>, a: nat, b: nat, k: nat)
    requires LatticeOrder(n, leq) && CoveringOf(n, leq, children) && Covers(n, leq, a, b) && k >= 1
    ensures LatticeOrder(n + k, BetweenOrder(n, leq, a, b, k))
    ensures CoveringOf(n + k, BetweenOrder(n, leq, a, b, k), AddNodesBetween(children, a, b, k))
  {
    var t, m := BetweenOrder(n, leq, a, b, k), n + k;
    var r := AddNodesBetween(children, a, b, k);
    BetweenLattice(n, leq, a, b, k);
    forall y, j | 0 <= y < m && 0 <= j < |r[y]| ensures r[y][j] < m {
      assert r[y][j] in r[y];
      if y < n && y != b {
        ChildOld(n, children, y, r[y][j]);
      } else if y == b && r[y][j] < n {
      }
    }
    forall x, y | 0 <= x < m && 0 <= y < m ensures CoverAt(m, t, r, x, y) {
      if y == b {
        BetweenCoverB(n, leq, children, a, b, k, x);
      } else if y < n {
        BetweenCoverOld(n, leq, children, a, b, k, x, y);
      } else {
        BetweenCoverNew(n, leq, children, a, b, k, x, y);
      }
    }
  }

  // ---------------------------------------------------------------------
  // The preset lattices (lattices.js:97-116).

  lemma TwiceStep(children: seq<seq<nat>>, leq: seq<seq<bool>>)
    requires CoveringLattice(children, leq)
    ensures CoveringLattice(TwiceChildren(children), TwiceOrder(|children|, leq))
    ensures TwiceChildren(children)[|children|] != []
  {
    TwiceCovering(|children|, leq, children);
    assert TwiceChildren(children)[|children|] == UpperList(children, 0);
  }

  lemma BetweenStep(children: seq<seq<nat>>, leq: seq<seq<bool>>, a: nat, b: nat, k: nat)
    requires CoveringLattice(children, leq) && b < |children| && a in children[b] && k >= 1
    ensures CoveringLattice(AddNodesBetween(children, a, b, k), BetweenOrder(|children|, leq, a, b, k))
    ensures AddNodesBetween(children, a, b, k)[|children|] != []
  {
    ChildOld(|children|, children, b, a);
    assert CoverAt(|children|, leq, children, a, b);
    AddNodesCovering(|children|, leq, children, a, b, k);
  }

  /** A value of the generator as a natural number, together with its bound. */
  method Draw(g: Generator) returns (v: nat)
    requires g.Valid() && g.seed >= 0
    modifies g
    ensures g.Valid() && g.calls == old(g.calls) + 1
    ensures v == Output(g.seed, g.maxValue, g.calls) && v < BigPrime
  {
    var x := g.Next();
    OutputBound(g.seed, g.maxValue, g.calls);
    v := x;
  }

  /**
   * lattices.js:97-116: with k raised to 2 and a generator seeded with k, start
   * from the two-element chain and, until there are k nodes, either double (when
   * a value is divisible by the doubling modulus and the size allows it, which
   * doubles the modulus) or put a run of new nodes into an edge chosen by
   * randomEdge (the run grows by one for each further value divisible by 4, and
   * is dropped when it would exceed k). Every pass of either loop spends one unit
   * of fuel; None means the fuel ran out first.
   */
  method Presets(k: int, fuel: nat) returns (r: Option<seq<seq<nat>>>)
    ensures r.Some? ==> |r.value| == (if k < 2 then 2 else k) && LatticeCovering(r.value)
  {
    var size: nat := if k < 2 then 2 else k;
    var p := Powerset(1);
    assert p.Success?;
    var children := p.value;
    ghost var leq := SubsetOrder(1);
    PowersetLattice(1);
    assert CoveringLattice(children, leq);
    ghost var full: nat := 1;
    assert children[full] == UpperList([[]], 0);
    var mod: nat := 2;
    var next := new Generator(size, DefaultMax);
    var budget := fuel;
    while |children| < size
      invariant next.Valid() && next.seed == size
      invariant 2 <= |children| <= size && full < |children| && children[full] != []
      invariant CoveringLattice(children, leq)
      invariant mod >= 1
      decreases budget
    {
      if budget == 0 {
        return None;
      }
      budget := budget - 1;
      var v := Draw(next);
      if v % mod == 0 {
        if |children| * 2 > size {
          continue;
        }
        TwiceStep(children, leq);
        leq := TwiceOrder(|children|, leq);
        full := |children|;
        children := TwiceChildren(children);
        mod := mod * 2;
      } else {
        var start := Draw(next);
        var e := RandomEdge(children, start);
        assert e.Success?;
        var a, b := e.value.0, e.value.1;
        assert a in children[b];
        var nNodes: nat := 1;
        var w := Draw(next);
        while w % 4 == 0
          invariant next.Valid() && next.seed == size && nNodes >= 1
          decreases budget
        {
          if budget == 0 {
            return None;
          }
          budget := budget - 1;
          nNodes := nNodes + 1;
          w := Draw(next);
        }
        if |children| + nNodes > size {
          continue;
        }
        BetweenStep(children, leq, a, b, nNodes);
        leq := BetweenOrder(|children|, leq, a, b, nNodes);
        full := |children|;
        children := AddNodesBetween(children, a, b, nNodes);
      }
    }
    return Some(children);
  }
}
