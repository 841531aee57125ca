/**
 * The Lattice constructor of lattices.js:244-328 and the static builders
 * beside it (lattices.js:331-352, 400-414). The constructor fills every
 * derived table cell by cell; the lemmas here show that for a lattice order
 * the result satisfies the invariant Valid of the Lattices module.
 */
module Construct {
  import opened Utils
  import opened Lattices
  import opened UtilsChildren
  import opened Generators

  // ---------------------------------------------------------------------
  // Facts about an order and its covering relation.

  /** The number of elements below v, for every v. */
  ghost function HeightRank(n: nat, leq: seq<seq<bool>>): (rank: seq<nat>)
    requires Square(leq, n)
    ensures |rank| == n && forall v :: 0 <= v < n ==> rank[v] == OrderHeight(n, leq, v)
  {
    seq(n, (v: int) requires 0 <= v < n => OrderHeight(n, leq, v))
  }

  /** A listed child is covered by its list's owner. */
  lemma ChildCovered(n: nat, leq: seq<seq<bool>>, children: seq<seq<nat>>, y: nat, j: nat)
    requires PartialOrder(n, leq) && CoveringOf(n, leq, children) && y < n && j < |children[y]|
    ensures children[y][j] < n && Covers(n, leq, children[y][j], y)
  {
    assert CoverAt(n, leq, children, children[y][j], y);
  }

  /** A covering relation has no cycles: the height ranks it. */
  lemma CoveringRanked(n: nat, leq: seq<seq<bool>>, children: seq<seq<nat>>)
    requires PartialOrder(n, leq) && CoveringOf(n, leq, children)
    ensures Ranked(children, HeightRank(n, leq)) && Acyclic(children)
  {
    var rank := HeightRank(n, leq);
    forall x, j | 0 <= x < n && 0 <= j < |children[x]| && children[x][j] != x
      ensures rank[children[x][j]] < rank[x]
    {
      ChildCovered(n, leq, children, x, j);
      OrderHeightMono(n, leq, children[x][j], x);
    }
  }

  /** An order is the reflexive-transitive closure of its covering relation. */
  lemma CoveringClosure(n: nat, leq: seq<seq<bool>>, children: seq<seq<nat>>)
    requires PartialOrder(n, leq) && CoveringOf(n, leq, children)
    ensures Closure(children, leq)
  {
    forall x, y | 0 <= x < n && 0 <= y < n ensures ClosedAt(children, leq, x, y) {
      if leq[x][y] && x != y {
        var c := BelowSomeCover(n, leq, x, y);
        assert CoverAt(n, leq, children, c, y);
      }
      if exists c :: c in children[y] && c != y && c < n && leq[x][c] {
        var c :| c in children[y] && c != y && c < n && leq[x][c];
        assert CoverAt(n, leq, children, c, y);
        OrderTrans(n, leq, x, c, y);
      }
    }
  }

  /** Listed before position k means a smaller position. */
  lemma PosBefore(t: seq<nat>, n: nat, v: nat, k: nat)
    requires Perm(t, n) && v < n && k <= |t| && v in t[..k]
    ensures PosOf(t, n, v) < k
  {
    var i :| 0 <= i < k && t[i] == v;
    PosOfAt(t, n, i);
  }

  /** With children listed first, x <= y puts x no later than y. */
  lemma {:induction false} PosBelow(n: nat, leq: seq<seq<bool>>, children: seq<seq<nat>>, t: seq<nat>, x: nat, y: nat)
    requires PartialOrder(n, leq) && CoveringOf(n, leq, children) && Perm(t, n) && ReqFirst(children, t)
    requires x < n && y < n && leq[x][y]
    ensures PosOf(t, n, x) <= PosOf(t, n, y)
    decreases PosOf(t, n, y)
  {
    if x != y {
      var c := BelowSomeCover(n, leq, x, y);
      assert CoverAt(n, leq, children, c, y);
      var j :| 0 <= j < |children[y]| && children[y][j] == c;
      var k := PosOf(t, n, y);
      assert children[t[k]][j] in t[..k];
      PosBefore(t, n, c, k);
      PosBelow(n, leq, children, t, x, c);
    }
  }

  /** With parents listed first, x <= y puts y no later than x. */
  lemma {:induction false} PosAbove(n: nat, leq: seq<seq<bool>>, children: seq<seq<nat>>, parents: seq<seq<nat>>, t: seq<nat>, x: nat, y: nat)
    requires PartialOrder(n, leq) && CoveringOf(n, leq, children) && Perm(t, n) && ReqFirst(parents, t)
    requires |parents| == n && forall u, v :: 0 <= u < n && 0 <= v < n ==> (u in parents[v] <==> v in children[u])
    requires x < n && y < n && leq[x][y]
    ensures PosOf(t, n, y) <= PosOf(t, n, x)
    decreases PosOf(t, n, x)
  {
    if x != y {
      var c := AboveSomeCover(n, leq, x, y);
      assert CoverAt(n, leq, children, x, c);
      assert c in parents[x];
      var j :| 0 <= j < |parents[x]| && parents[x][j] == c;
      var k := PosOf(t, n, x);
      assert parents[t[k]][j] in t[..k];
      PosBefore(t, n, c, k);
      PosAbove(n, leq, children, parents, t, c, y);
    }
  }

  /** A depth-first order of the children lists is a bottom-up order. */
  lemma DownUpFromDfs(n: nat, leq: seq<seq<bool>>, children: seq<seq<nat>>, t: seq<nat>)
    requires PartialOrder(n, leq) && CoveringOf(n, leq, children) && Perm(t, n) && ReqFirst(children, t)
    ensures BottomUp(n, leq, t)
  {
    forall i, j | 0 <= i < j < |t| ensures NotBelowAt(n, leq, t, i, j) {
      if leq[t[j]][t[i]] {
        PosBelow(n, leq, children, t, t[j], t[i]);
        PosOfAt(t, n, i);
        PosOfAt(t, n, j);
      }
    }
  }

  /** A depth-first order of the parents lists is a top-down order. */
  lemma UpDownFromDfs(n: nat, leq: seq<seq<bool>>, children: seq<seq<nat>>, parents: seq<seq<nat>>, t: seq<nat>)
    requires PartialOrder(n, leq) && CoveringOf(n, leq, children) && Perm(t, n) && ReqFirst(parents, t)
    requires |parents| == n && forall u, v :: 0 <= u < n && 0 <= v < n ==> (u in parents[v] <==> v in children[u])
    ensures TopDown(n, leq, t)
  {
    forall i, j | 0 <= i < j < |t| ensures NotBelowAt(n, leq, t, j, i) {
      if leq[t[i]][t[j]] {
        PosAbove(n, leq, children, parents, t, t[i], t[j]);
        PosOfAt(t, n, i);
        PosOfAt(t, n, j);
      }
    }
  }

  /** Some element is above the first k, joining them one by one. */
  lemma {:induction false} UpperOf(n: nat, leq: seq<seq<bool>>, k: nat) returns (c: nat)
    requires LatticeOrder(n, leq) && k <= n
    ensures c < n && forall x :: 0 <= x < k ==> leq[x][c]
  {
    if k == 0 {
      c := 0;
    } else {
      var c' := UpperOf(n, leq, k - 1);
      assert HasLub(n, leq, c', k - 1);
      c :| IsLub(n, leq, c', k - 1, c);
      forall x | 0 <= x < k ensures leq[x][c] {
        if x < k - 1 {
          OrderTrans(n, leq, x, c', c);
        }
      }
    }
  }

  /** Some element is below the first k, meeting them one by one. */
  lemma {:induction false} LowerOf(n: nat, leq: seq<seq<bool>>, k: nat) returns (c: nat)
    requires LatticeOrder(n, leq) && k <= n
    ensures c < n && forall x :: 0 <= x < k ==> leq[c][x]
  {
    if k == 0 {
      c := 0;
    } else {
      var c' := LowerOf(n, leq, k - 1);
      assert HasGlb(n, leq, c', k - 1);
      c :| IsGlb(n, leq, c', k - 1, c);
      forall x | 0 <= x < k ensures leq[c][x] {
        if x < k - 1 {
          OrderTrans(n, leq, c, c', x);
        }
      }
    }
  }

  /** In a lattice, the top is the one element that nothing covers. */
  lemma TopUnique(n: nat, leq: seq<seq<bool>>, children: seq<seq<nat>>, parents: seq<seq<nat>>, top: nat)
    requires PartialOrder(n, leq) && CoveringOf(n, leq, children)
    requires |parents| == n && forall u, v :: 0 <= u < n && 0 <= v < n ==> (u in parents[v] <==> v in children[u])
    requires Entries(parents, n) && top < n && forall x :: 0 <= x < n ==> leq[x][top]
    ensures forall x :: 0 <= x < n ==> (parents[x] == [] <==> x == top)
  {
    forall x | 0 <= x < n ensures parents[x] == [] <==> x == top {
      if x != top {
        var c := AboveSomeCover(n, leq, x, top);
        assert CoverAt(n, leq, children, x, c);
        assert c in parents[x];
      } else if parents[x] != [] {
        var c := parents[x][0];
        assert c in parents[x];
        assert CoverAt(n, leq, children, x, c);
        OrderAntisym(n, leq, x, c);
      }
    }
  }

  /** In a lattice, the bottom is the one element that covers nothing. */
  lemma BottomUnique(n: nat, leq: seq<seq<bool>>, children: seq<seq<nat>>, bottom: nat)
    requires PartialOrder(n, leq) && CoveringOf(n, leq, children)
    requires bottom < n && forall x :: 0 <= x < n ==> leq[bottom][x]
    ensures forall x :: 0 <= x < n ==> (children[x] == [] <==> x == bottom)
  {
    forall x | 0 <= x < n ensures children[x] == [] <==> x == bottom {
      if x != bottom {
        var c := BelowSomeCover(n, leq, bottom, x);
        assert CoverAt(n, leq, children, c, x);
      } else if children[x] != [] {
        ChildCovered(n, leq, children, x, 0);
        OrderAntisym(n, leq, x, children[x][0]);
      }
    }
  }

  // ---------------------------------------------------------------------
  // The constructor's loops (lattices.js:246-308).

  /** lattices.js:247: every row must have n entries. */
  method SquareRows(leq: seq<seq<bool>>) returns (ok: bool)
    ensures ok <==> Square(leq, |leq|)
  {
    ok := true;
    for i := 0 to |leq|
      invariant ok <==> forall k :: 0 <= k < i ==> |leq[k]| == |leq|
    {
      if |leq[i]| != |leq| {
        ok := false;
      }
    }
  }

  function FalseMat(n: nat): (t: seq<seq<bool>>)
    ensures Square(t, n)
  {
    seq(n, (_: int) => seq(n, (_: int) => false))
  }

  function ZeroMat(n: nat): (t: seq<seq<nat>>)
    ensures Square(t, n) && Entries(t, n + 1)
  {
    seq(n, (_: int) => seq(n, (_: int) => 0))
  }

  /** The cell (x, y) of the inverse and strict tables. */
  ghost predicate StrictCell(leq: seq<seq<bool>>, geq: seq<seq<bool>>, gt: seq<seq<bool>>, lt: seq<seq<bool>>, n: nat, x: nat, y: nat)
    requires Square(leq, n) && Square(geq, n) && Square(gt, n) && Square(lt, n) && x < n && y < n
  {
    geq[x][y] == leq[y][x] && gt[x][y] == (leq[y][x] && x != y) && lt[x][y] == (leq[x][y] && x != y)
  }

  /** lattices.js:250-257: geq, gt and lt, cell by cell. */
  method StrictTables(leq: seq<seq<bool>>, n: nat) returns (geq: seq<seq<bool>>, gt: seq<seq<bool>>, lt: seq<seq<bool>>)
    requires Square(leq, n)
    ensures Square(geq, n) && Square(gt, n) && Square(lt, n)
    ensures forall x, y :: 0 <= x < n && 0 <= y < n ==> StrictCell(leq, geq, gt, lt, n, x, y)
    ensures forall x, y :: 0 <= x < n && 0 <= y < n ==>
      geq[x][y] == leq[y][x] && gt[x][y] == (leq[y][x] && x != y) && lt[x][y] == (leq[x][y] && x != y)
  {
    geq, gt, lt := FalseMat(n), FalseMat(n), FalseMat(n);
    for a := 0 to n
      invariant Square(geq, n) && Square(gt, n) && Square(lt, n)
      invariant forall x, y :: 0 <= x < a && 0 <= y < n ==> StrictCell(leq, geq, gt, lt, n, x, y)
    {
      for b := 0 to n
        invariant Square(geq, n) && Square(gt, n) && Square(lt, n)
        invariant forall x, y :: 0 <= x < a && 0 <= y < n ==> StrictCell(leq, geq, gt, lt, n, x, y)
        invariant forall y :: 0 <= y < b ==> StrictCell(leq, geq, gt, lt, n, a, y)
      {
        ghost var geq0, gt0, lt0 := geq, gt, lt;
        geq := geq[a := geq[a][b := leq[b][a]]];
        gt := gt[a := gt[a][b := geq[a][b] && a != b]];
        lt := lt[a := lt[a][b := leq[a][b] && a != b]];
        forall x, y | 0 <= x < n && 0 <= y < n && (x < a || (x == a && y < b))
          ensures StrictCell(leq, geq, gt, lt, n, x, y)
        {
          assert StrictCell(leq, geq0, gt0, lt0, n, x, y);
        }
      }
    }
    forall x, y | 0 <= x < n && 0 <= y < n
      ensures geq[x][y] == leq[y][x] && gt[x][y] == (leq[y][x] && x != y) && lt[x][y] == (leq[x][y] && x != y)
    {
      assert StrictCell(leq, geq, gt, lt, n, x, y);
    }
  }

  /** No lower bound other than m is above the meet m. */
  lemma GlbNotBelow(n: nat, ord: seq<seq<bool>>, a: nat, b: nat, m: nat, x: nat)
    requires PartialOrder(n, ord) && a < n && b < n && x < n && IsGlb(n, ord, a, b, m)
    requires ord[x][a] && ord[x][b] && x != m
    ensures !ord[m][x]
  {
    assert LowerBoundBelow(n, ord, a, b, m, x);
    assert Antisymmetric2(n, ord, m, x);
  }

  /**
   * lattices.js:261-263 (and 264-266 on geq): the lower bounds of a and b in
   * increasing order, reduced by keeping the later one whenever it is above the
   * one kept so far. When the meet exists the scan ends on it.
   */
  method Extreme(n: nat, ord: seq<seq<bool>>, a: nat, b: nat) returns (c: nat)
    requires PartialOrder(n, ord) && a < n && b < n && HasGlb(n, ord, a, b)
    ensures IsGlb(n, ord, a, b, c) && IsGlb(n, ord, b, a, c)
  {
    ghost var m: nat :| IsGlb(n, ord, a, b, m);
    var found := false;
    c := 0;
    for x := 0 to n
      invariant c < n && (found ==> ord[c][a] && ord[c][b])
      invariant m < x ==> found && c == m
    {
      if ord[x][a] && ord[x][b] {
        if !found {
          c, found := x, true;
        } else {
          if x == m {
            assert LowerBoundBelow(n, ord, a, b, m, c);
          } else if m < x {
            GlbNotBelow(n, ord, a, b, m, x);
          }
          if ord[c][x] {
            c := x;
          }
        }
      }
    }
    assert forall x :: 0 <= x < n ==> LowerBoundBelow(n, ord, b, a, c, x) == LowerBoundBelow(n, ord, a, b, c, x);
  }

  /** The cell (x, y) of the meet and join tables, filled together with (y, x). */
  ghost predicate BoundCell(n: nat, leq: seq<seq<bool>>, glb: seq<seq<nat>>, lub: seq<seq<nat>>, x: nat, y: nat)
    requires Square(leq, n) && Square(glb, n) && Square(lub, n) && x < n && y < n
  {
    && IsGlb(n, leq, x, y, glb[x][y]) && IsLub(n, leq, x, y, lub[x][y])
    && glb[x][y] == glb[y][x] && lub[x][y] == lub[y][x]
  }

  /** The pair (x, y) comes before (a, b) in the constructor's scan of the pairs a <= b. */
  ghost predicate PairDone(a: nat, b: nat, x: nat, y: nat) {
    var lo, hi := if x < y then x else y, if x < y then y else x;
    lo < a || (lo == a && hi < b)
  }

  /** geq is the inverse of a lattice order, so it is one. */
  lemma GeqLattice(n: nat, leq: seq<seq<bool>>, geq: seq<seq<bool>>)
    requires LatticeOrder(n, leq) && Square(geq, n)
    requires forall x, y :: 0 <= x < n && 0 <= y < n ==> geq[x][y] == leq[y][x]
    ensures LatticeOrder(n, geq)
  {
    var t := Transpose(n, leq);
    forall x | 0 <= x < n ensures geq[x] == t[x] {
    }
    assert geq == t;
    TransposeLattice(n, leq);
  }

  /** A meet for geq is a join for leq, in either order of the pair. */
  lemma GeqGlbIsLub(n: nat, leq: seq<seq<bool>>, geq: seq<seq<bool>>, a: nat, b: nat, l: nat)
    requires Square(leq, n) && Square(geq, n) && a < n && b < n
    requires forall x, y :: 0 <= x < n && 0 <= y < n ==> geq[x][y] == leq[y][x]
    requires IsGlb(n, geq, a, b, l) && IsGlb(n, geq, b, a, l)
    ensures IsLub(n, leq, a, b, l) && IsLub(n, leq, b, a, l)
  {
    forall x | 0 <= x < n ensures UpperBoundAbove(n, leq, a, b, l, x) && UpperBoundAbove(n, leq, b, a, l, x) {
      assert LowerBoundBelow(n, geq, a, b, l, x);
    }
  }

  /** lattices.js:261 and 264: `t[a][b] = t[b][a] = v`. */
  function SetBoth(t: seq<seq<nat>>, n: nat, a: nat, b: nat, v: nat): (r: seq<seq<nat>>)
    requires Square(t, n) && a < n && b < n
    ensures Square(r, n) && r[a][b] == v && r[b][a] == v
    ensures forall x, y :: 0 <= x < n && 0 <= y < n && !(x == a && y == b) && !(x == b && y == a) ==> r[x][y] == t[x][y]
  {
    var row: seq<nat> := t[a][b := v];
    var t' := t[a := row];
    var row': seq<nat> := t'[b][a := v];
    t'[b := row']
  }

  /** Setting the cells (a, b) and (b, a) to the meet and join of a and b extends the filled pairs by one. */
  lemma BoundStep(n: nat, leq: seq<seq<bool>>, glb0: seq<seq<nat>>, lub0: seq<seq<nat>>,
                  a: nat, b: nat, g: nat, l: nat)
    requires Square(leq, n) && Square(glb0, n) && Square(lub0, n) && a <= b < n
    requires forall x, y :: 0 <= x < n && 0 <= y < n && PairDone(a, b, x, y) ==> BoundCell(n, leq, glb0, lub0, x, y)
    requires IsGlb(n, leq, a, b, g) && IsGlb(n, leq, b, a, g)
    requires IsLub(n, leq, a, b, l) && IsLub(n, leq, b, a, l)
    ensures forall x, y :: 0 <= x < n && 0 <= y < n && PairDone(a, b + 1, x, y) ==>
      BoundCell(n, leq, SetBoth(glb0, n, a, b, g), SetBoth(lub0, n, a, b, l), x, y)
  {
    var glb, lub := SetBoth(glb0, n, a, b, g), SetBoth(lub0, n, a, b, l);
    forall x, y | 0 <= x < n && 0 <= y < n && PairDone(a, b + 1, x, y)
      ensures BoundCell(n, leq, glb, lub, x, y)
    {
      if PairDone(a, b, x, y) {
        assert BoundCell(n, leq, glb0, lub0, x, y);
      }
    }
  }

  /**
   * lattices.js:258-267: for each pair a <= b the meet is the Extreme scan on
   * leq and the join the same scan on geq; both cells (a, b) and (b, a) are set.
   */
  method Bounds(n: nat, leq: seq<seq<bool>>, geq: seq<seq<bool>>) returns (glb: seq<seq<nat>>, lub: seq<seq<nat>>)
    requires LatticeOrder(n, leq) && Square(geq, n)
    requires forall x, y :: 0 <= x < n && 0 <= y < n ==> geq[x][y] == leq[y][x]
    ensures Square(glb, n) && Square(lub, n)
    ensures forall x, y :: 0 <= x < n && 0 <= y < n ==> BoundCell(n, leq, glb, lub, x, y)
    ensures forall x, y :: 0 <= x < n && 0 <= y < n ==> glb[x][y] == glb[y][x] && lub[x][y] == lub[y][x]
  {
    GeqLattice(n, leq, geq);
    glb, lub := ZeroMat(n), ZeroMat(n);
    for a := 0 to n
      invariant Square(glb, n) && Square(lub, n)
      invariant forall x, y :: 0 <= x < n && 0 <= y < n && PairDone(a, 0, x, y) ==> BoundCell(n, leq, glb, lub, x, y)
    {
      for b := a to n
        invariant Square(glb, n) && Square(lub, n)
        invariant forall x, y :: 0 <= x < n && 0 <= y < n && PairDone(a, b, x, y) ==> BoundCell(n, leq, glb, lub, x, y)
      {
        assert HasGlb(n, leq, a, b) && HasGlb(n, geq, a, b);
        var g := Extreme(n, leq, a, b);
        var l := Extreme(n, geq, a, b);
        GeqGlbIsLub(n, leq, geq, a, b, l);
        BoundStep(n, leq, glb, lub, a, b, g, l);
        glb := SetBoth(glb, n, a, b, g);
        lub := SetBoth(lub, n, a, b, l);
      }
    }
    forall x, y | 0 <= x < n && 0 <= y < n ensures glb[x][y] == glb[y][x] && lub[x][y] == lub[y][x] {
      assert BoundCell(n, leq, glb, lub, x, y);
    }
  }

  /** Covering in terms of the strict order: a < b with no x such that a < x < b. */
  lemma CoversByLt(n: nat, leq: seq<seq<bool>>, lt: seq<seq<bool>>, a: nat, b: nat)
    requires Square(leq, n) && Square(lt, n) && a < n && b < n
    requires forall x, y :: 0 <= x < n && 0 <= y < n ==> lt[x][y] == (leq[x][y] && x != y)
    ensures Covers(n, leq, a, b) <==> lt[a][b] && forall x :: 0 <= x < n ==> !(lt[a][x] && lt[x][b])
  {
    if lt[a][b] && forall x :: 0 <= x < n ==> !(lt[a][x] && lt[x][b]) {
      forall x | 0 <= x < n ensures NotBetween(n, leq, a, b, x) {
      }
    }
    if Covers(n, leq, a, b) {
      forall x | 0 <= x < n ensures !(lt[a][x] && lt[x][b]) {
        assert NotBetween(n, leq, a, b, x);
      }
    }
  }

  /** lattices.js:272: the number of x strictly between a and b is zero. */
  method NothingBetween(n: nat, lt: seq<seq<bool>>, a: nat, b: nat) returns (none: bool)
    requires Square(lt, n) && a < n && b < n
    ensures none <==> forall x :: 0 <= x < n ==> !(lt[a][x] && lt[x][b])
  {
    var count := 0;
    for x := 0 to n
      invariant count == 0 <==> forall y :: 0 <= y < x ==> !(lt[a][y] && lt[y][b])
    {
      if lt[a][x] && lt[x][b] {
        count := count + 1;
      }
    }
    none := count == 0;
  }

  /** The pair (x, y) is listed once the scan of pairs (a, b) has passed it, exactly when y covers x. */
  ghost predicate ListedSoFar(n: nat, leq: seq<seq<bool>>, children: seq<seq<nat>>, a: nat, b: nat, x: nat, y: nat)
    requires Square(leq, n) && |children| == n && x < n && y < n
  {
    x in children[y] <==> (x < a || (x == a && y < b)) && Covers(n, leq, x, y)
  }

  /**
   * lattices.js:268-274, when no covering is given: for every pair a < b with
   * nothing strictly between, a is pushed onto the list of b.
   */
  method CoveringFromLt(n: nat, leq: seq<seq<bool>>, lt: seq<seq<bool>>) returns (children: seq<seq<nat>>)
    requires PartialOrder(n, leq) && Square(lt, n)
    requires forall x, y :: 0 <= x < n && 0 <= y < n ==> lt[x][y] == (leq[x][y] && x != y)
    ensures CoveringOf(n, leq, children)
  {
    children := seq(n, (_: int) => []);
    for a := 0 to n
      invariant |children| == n && Entries(children, n)
      invariant forall x, y :: 0 <= x < n && 0 <= y < n ==> ListedSoFar(n, leq, children, a, 0, x, y)
    {
      for b := 0 to n
        invariant |children| == n && Entries(children, n)
        invariant forall x, y :: 0 <= x < n && 0 <= y < n ==> ListedSoFar(n, leq, children, a, b, x, y)
      {
        ghost var before := children;
        CoversByLt(n, leq, lt, a, b);
        if lt[a][b] {
          var none := NothingBetween(n, lt, a, b);
          if none {
            children := children[b := children[b] + [a]];
          }
        }
        var b' := b + 1;
        forall x, y | 0 <= x < n && 0 <= y < n ensures ListedSoFar(n, leq, children, a, b', x, y) {
          assert ListedSoFar(n, leq, before, a, b, x, y);
        }
      }
      var a' := a + 1;
      forall x, y | 0 <= x < n && 0 <= y < n ensures ListedSoFar(n, leq, children, a', 0, x, y) {
        assert ListedSoFar(n, leq, children, a, n, x, y);
      }
    }
    forall x, y | 0 <= x < n && 0 <= y < n ensures CoverAt(n, leq, children, x, y) {
      assert ListedSoFar(n, leq, children, n, 0, x, y);
    }
  }

  /** lattices.js:275-276: the lengths of all lists, summed. */
  method EdgeTotal(children: seq<seq<nat>>) returns (m: nat)
    ensures m == EdgeCount(children)
  {
    m := 0;
    for i := 0 to |children|
      invariant m == EdgeCount(children[..i])
    {
      assert children[..i + 1][..i] == children[..i];
      m := m + |children[i]|;
    }
    assert children[..|children|] == children;
  }

  /** lattices.js:279-280: the first index whose list is empty, if any. */
  method FirstEmpty(lists: seq<seq<nat>>) returns (r: Option<nat>)
    ensures r.None? <==> forall x :: 0 <= x < |lists| ==> lists[x] != []
    ensures r.Some? ==> r.value < |lists| && lists[r.value] == [] && forall x :: 0 <= x < r.value ==> lists[x] != []
  {
    for i := 0 to |lists|
      invariant forall x :: 0 <= x < i ==> lists[x] != []
    {
      if lists[i] == [] {
        return Some(i);
      }
    }
    return None;
  }

  /** (x, y) is listed once the scan of pairs (a, b) with a < b has passed it, exactly when x < y are incomparable. */
  ghost predicate UncomparableSoFar(n: nat, leq: seq<seq<bool>>, u: seq<(nat, nat)>, a: nat, b: nat, x: nat, y: nat)
    requires Square(leq, n)
  {
    (x, y) in u <==> (x < a || (x == a && y < b)) && x < y < n && !leq[x][y] && !leq[y][x]
  }

  /** lattices.js:305-308: the pairs a < b comparable in neither direction, in scan order. */
  method Uncomparables(n: nat, leq: seq<seq<bool>>) returns (u: seq<(nat, nat)>)
    requires Square(leq, n)
    ensures forall x: nat, y: nat :: (x, y) in u <==> x < y < n && !leq[x][y] && !leq[y][x]
  {
    u := [];
    for a := 0 to n
      invariant forall x: nat, y: nat :: UncomparableSoFar(n, leq, u, a, 0, x, y)
    {
      var a' := a + 1;
      forall x: nat, y: nat ensures UncomparableSoFar(n, leq, u, a, a', x, y) {
        assert UncomparableSoFar(n, leq, u, a, 0, x, y);
      }
      for b := a' to n
        invariant forall x: nat, y: nat :: UncomparableSoFar(n, leq, u, a, b, x, y)
      {
        ghost var before := u;
        if !leq[a][b] && !leq[b][a] {
          u := u + [(a, b)];
        }
        var b' := b + 1;
        forall x: nat, y: nat ensures UncomparableSoFar(n, leq, u, a, b', x, y) {
          assert UncomparableSoFar(n, leq, before, a, b, x, y);
        }
      }
      forall x: nat, y: nat ensures UncomparableSoFar(n, leq, u, a', 0, x, y) {
        assert UncomparableSoFar(n, leq, u, a, n, x, y);
      }
    }
    forall x: nat, y: nat ensures (x, y) in u <==> x < y < n && !leq[x][y] && !leq[y][x] {
      assert UncomparableSoFar(n, leq, u, n, 0, x, y);
    }
  }

  // ---------------------------------------------------------------------
  // The constructor.

  /** The facts the constructor's steps establish, assembled into Valid. */
  lemma ValidParts(L: Lattice)
    requires LatticeOrder(L.n, L.leq) && Square(L.geq, L.n) && Square(L.gt, L.n) && Square(L.lt, L.n)
    requires forall x, y :: 0 <= x < L.n && 0 <= y < L.n ==> StrictCell(L.leq, L.geq, L.gt, L.lt, L.n, x, y)
    requires Square(L.glb, L.n) && Square(L.lub, L.n)
    requires forall x, y :: 0 <= x < L.n && 0 <= y < L.n ==> BoundCell(L.n, L.leq, L.glb, L.lub, x, y)
    requires CoveringOf(L.n, L.leq, L.children) && L.m == EdgeCount(L.children)
    requires |L.parents| == L.n && Entries(L.parents, L.n)
    requires forall x, y :: 0 <= x < L.n && 0 <= y < L.n ==> (x in L.parents[y] <==> y in L.children[x])
    requires Square(L.isChild, L.n)
    requires forall a, b :: 0 <= a < L.n && 0 <= b < L.n ==> (L.isChild[a][b] <==> a in L.children[b])
    requires L.top < L.n && L.bottom < L.n && forall x :: 0 <= x < L.n ==> L.leq[x][L.top] && L.leq[L.bottom][x]
    requires Perm(L.topoDownUp, L.n) && BottomUp(L.n, L.leq, L.topoDownUp)
    requires Perm(L.topoUpDown, L.n) && TopDown(L.n, L.leq, L.topoUpDown)
    requires forall x: nat, y: nat :: (x, y) in L.uncomparables <==> x < y < L.n && !L.leq[x][y] && !L.leq[y][x]
    ensures Valid(L)
  {
    var n := L.n;
    forall a, b | 0 <= a < n && 0 <= b < n ensures StrictAt(L, a, b) && IsLub(n, L.leq, a, b, L.lub[a][b]) && IsGlb(n, L.leq, a, b, L.glb[a][b]) {
      assert StrictCell(L.leq, L.geq, L.gt, L.lt, n, a, b);
      assert BoundCell(n, L.leq, L.glb, L.lub, a, b);
    }
    assert Tables(L);
    assert Cover(L);
    forall a: nat, b: nat ensures UncomparableAt(L, a, b) {
    }
  }

  /**
   * lattices.js:275-324: the tables computed from the covering relation
   * (the edge count, parents, isChild, top, bottom, both topological orders
   * and the incomparable pairs), gathered with the order tables into one
   * lattice value.
   */
  method Assemble(n: nat, leq: seq<seq<bool>>, geq: seq<seq<bool>>, gt: seq<seq<bool>>, lt: seq<seq<bool>>,
                  glb: seq<seq<nat>>, lub: seq<seq<nat>>, children: seq<seq<nat>>) returns (L: Lattice)
    requires LatticeOrder(n, leq)
    requires Square(geq, n) && Square(gt, n) && Square(lt, n)
    requires forall x, y :: 0 <= x < n && 0 <= y < n ==> StrictCell(leq, geq, gt, lt, n, x, y)
    requires Square(glb, n) && Square(lub, n)
    requires forall x, y :: 0 <= x < n && 0 <= y < n ==> BoundCell(n, leq, glb, lub, x, y)
    requires CoveringOf(n, leq, children)
    ensures Valid(L) && L.n == n && L.leq == leq && L.children == children && L.lub == lub && L.glb == glb
  {
    var m := EdgeTotal(children);
    var parents := Children2Parents(children);
    var isChild := Children2IsChild(children);
    ghost var t := UpperOf(n, leq, n);
    ghost var u := LowerOf(n, leq, n);
    TopUnique(n, leq, children, parents, t);
    BottomUnique(n, leq, children, u);
    var top := FirstEmpty(parents);
    var bottom := FirstEmpty(children);
    assert parents[t] == [] && children[u] == [];
    assert top.Some? && parents[top.value] == [];
    assert bottom.Some? && children[bottom.value] == [];
    var topoDownUp := TopoDfs(children);
    var topoUpDown := TopoDfs(parents);
    CoveringRanked(n, leq, children);
    InverseAcyclic(children, parents);
    DownUpFromDfs(n, leq, children, topoDownUp);
    UpDownFromDfs(n, leq, children, parents, topoUpDown);
    var uncomparables := Uncomparables(n, leq);
    L := Lattice(n, m, top.value, bottom.value, leq, geq, lt, gt, isChild, lub, glb, children, parents, topoDownUp, topoUpDown, uncomparables);
    ValidParts(L);
  }

  /**
   * lattices.js:244-328: `new Lattice(leq, children)`. It fails when a row of
   * leq has the wrong length; otherwise, for a lattice order (and, when the
   * covering is passed in, its true covering), every derived table is the one
   * Valid describes.
   */
  method Build(leq: seq<seq<bool>>, given: Option<seq<seq<nat>>>) returns (r: Result<Lattice>)
    requires Square(leq, |leq|) ==> LatticeOrder(|leq|, leq)
    requires Square(leq, |leq|) && given.Some? ==> CoveringOf(|leq|, leq, given.value)
    ensures r.Failure? <==> !Square(leq, |leq|)
    ensures r.Success? ==> Valid(r.value) && r.value.n == |leq| && r.value.leq == leq
    ensures r.Success? && given.Some? ==> r.value.children == given.value
    ensures r.Success? ==> forall a, b :: 0 <= a < |leq| && 0 <= b < |leq| ==>
      r.value.lub[a][b] == r.value.lub[b][a] && r.value.glb[a][b] == r.value.glb[b][a]
  {
    var n := |leq|;
    var ok := SquareRows(leq);
    if !ok {
      return Failure("every row of leq must have n entries");
    }
    var geq, gt, lt := StrictTables(leq, n);
    var glb, lub := Bounds(n, leq, geq);
    var children;
    if given.Some? {
      children := given.value;
    } else {
      forall x, y | 0 <= x < n && 0 <= y < n ensures lt[x][y] == (leq[x][y] && x != y) {
        assert StrictCell(leq, geq, gt, lt, n, x, y);
      }
      children := CoveringFromLt(n, leq, lt);
    }
    var L := Assemble(n, leq, geq, gt, lt, glb, lub, children);
    return Success(L);
  }
}
