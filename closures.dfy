/**
 * The in-place closures of lattices.js: the greatest monotone map below h,
 * the least monotone map above h, and the greatest join-preserving map below h.
 * Each works on the array h and reports whether it changed anything.
 */
module Closures {
  import opened Lattices
  import opened Endos

  /** Every parent listed for an element is above it. */
  lemma ParentAbove(L: ValidLattice, x: nat, p: nat)
    requires x < L.n && p in L.parents[x]
    ensures p < L.n && L.leq[x][p] && x != p
  {
    var i :| 0 <= i < |L.parents[x]| && L.parents[x][i] == p;
    assert p < L.n;
    ChildIsCovered(L, x, p);
  }

  /** Every child listed for an element is below it. */
  lemma ChildBelow(L: ValidLattice, x: nat, c: nat)
    requires x < L.n && c in L.children[x]
    ensures c < L.n && L.leq[c][x] && c != x
  {
    var i :| 0 <= i < |L.children[x]| && L.children[x][i] == c;
    assert c < L.n;
    ChildIsCovered(L, c, x);
  }


  // ---------------------------------------------------------------------
  // monoMaxBelow: one top-down pass lowering each value to the meet of its parents' values.

  /** The meet of h(x) with the values of the first j parents of x (the inner loop's z). */
  ghost function ParentMeet(L: ValidLattice, h: seq<nat>, x: nat, j: nat): (z: nat)
    requires Endo(L, h) && x < L.n && j <= |L.parents[x]|
    ensures z < L.n
  {
    if j == 0 then h[x]
    else
      var p := L.parents[x][j - 1];
      ParentAbove(L, x, p);
      L.glb[ParentMeet(L, h, x, j - 1)][h[p]]
  }

  lemma {:induction false} ParentMeetBelow(L: ValidLattice, h: seq<nat>, x: nat, j: nat)
    requires Endo(L, h) && x < L.n && j <= |L.parents[x]|
    ensures ParentMeet(L, h, x, j) < L.n && L.leq[ParentMeet(L, h, x, j)][h[x]]
    ensures forall j' :: 0 <= j' < j ==> L.leq[ParentMeet(L, h, x, j)][h[L.parents[x][j']]]
  {
    if j > 0 {
      ParentMeetBelow(L, h, x, j - 1);
      var z := ParentMeet(L, h, x, j - 1);
      var p := L.parents[x][j - 1];
      ParentAbove(L, x, p);
      LubFacts(L, z, h[p]);
      var r := L.glb[z][h[p]];
      Trans(L, r, z, h[x]);
      forall j' | 0 <= j' < j - 1 ensures L.leq[r][h[L.parents[x][j']]] {
        Trans(L, r, z, h[L.parents[x][j']]);
      }
    }
  }

  /** A monotone g below h stays below the meet over the parents. */
  lemma {:induction false} ParentMeetAbove(L: ValidLattice, h: seq<nat>, x: nat, j: nat, g: seq<nat>)
    requires Endo(L, h) && x < L.n && j <= |L.parents[x]|
    requires Endo(L, g) && Monotone(L, g) && Le(L, g, h)
    ensures L.leq[g[x]][ParentMeet(L, h, x, j)]
  {
    if j > 0 {
      ParentMeetAbove(L, h, x, j - 1, g);
      ParentMeetBelow(L, h, x, j - 1);
      var p := L.parents[x][j - 1];
      ParentAbove(L, x, p);
      assert L.leq[g[x]][g[p]] && L.leq[g[p]][h[p]];
      Trans(L, g[x], g[p], h[p]);
      GlbGreatest(L, ParentMeet(L, h, x, j - 1), h[p], g[x]);
    }
  }

  /** The state of monoMaxBelow after visiting the first i elements of topoUpDown. */
  ghost predicate DownInv(L: ValidLattice, h0: seq<nat>, h: seq<nat>, i: nat)
  {
    var t := L.topoUpDown;
    && i <= L.n && Endo(L, h) && Le(L, h, h0) && MonoDominates(L, h, h0)
    && (forall k :: i <= k < L.n ==> h[t[k]] == h0[t[k]])
    && (forall k, p :: 0 <= k < i && p in L.parents[t[k]] ==> p < L.n && L.leq[h[t[k]]][h[p]])
  }

  /** Visiting the next element keeps the pass invariant. */
  lemma DownStep(L: ValidLattice, h0: seq<nat>, h: seq<nat>, i: nat)
    requires i < L.n && DownInv(L, h0, h, i)
    ensures var x := L.topoUpDown[i];
      DownInv(L, h0, h[x := ParentMeet(L, h, x, |L.parents[x]|)], i + 1)
  {
    var t := L.topoUpDown;
    var x := t[i];
    var ps := L.parents[x];
    var z := ParentMeet(L, h, x, |ps|);
    ParentMeetBelow(L, h, x, |ps|);
    var h' := h[x := z];
    assert Le(L, h', h0) by {
      forall y | 0 <= y < L.n ensures L.leq[h'[y]][h0[y]] {
        Trans(L, h'[y], h[y], h0[y]);
      }
    }
    forall g | MonoBelow(L, g, h0) ensures Le(L, g, h') {
      assert Le(L, g, h);
      ParentMeetAbove(L, h, x, |ps|, g);
    }
    forall k | i + 1 <= k < L.n ensures h'[t[k]] == h0[t[k]] {
      PermApart(t, L.n, k, i);
    }
    forall k, p | 0 <= k < i + 1 && p in L.parents[t[k]] ensures p < L.n && L.leq[h'[t[k]]][h'[p]] {
      ParentAbove(L, t[k], p);
      if k < i {
        PermApart(t, L.n, k, i);
        if p == x {
          UpDownOrdered(L, k, i);
        }
      } else {
        var j' :| 0 <= j' < |ps| && ps[j'] == p;
      }
    }
  }

  /** A finished pass is the greatest monotone map below the start. */
  lemma DownDone(L: ValidLattice, h0: seq<nat>, h: seq<nat>)
    requires DownInv(L, h0, h, L.n)
    ensures IsGreatestMonoBelow(L, h, h0)
  {
    var t := L.topoUpDown;
    forall b, c | 0 <= b < L.n && c in L.children[b] ensures L.leq[h[c]][h[b]] {
      ChildBelow(L, b, c);
      ChildIsCovered(L, c, b);
      var k := IndexOf(t, L.n, c);
    }
    CoverMonotoneIsMonotone(L, h);
  }

  /** The inner loop of monoMaxBelow (lattices.js:426-427): h(x) met with every parent's value. */
  method MeetOfParents(L: ValidLattice, h: array<nat>, x: nat) returns (z: nat)
    requires h.Length == L.n && Endo(L, h[..]) && x < L.n
    ensures z == ParentMeet(L, h[..], x, |L.parents[x]|)
  {
    z := h[x];
    var ps := L.parents[x];
    var j := 0;
    while j < |ps|
      invariant 0 <= j <= |ps|
      invariant z == ParentMeet(L, h[..], x, j)
    {
      ParentAbove(L, x, ps[j]);
      z := L.glb[z][h[ps[j]]];
      j := j + 1;
    }
  }

  /**
   * Greatest monotone map below h, in place (lattices.js:420-431): visit the
   * elements top-down and lower each one to the meet of its parents' values.
   */
  method MonoMaxBelow(L: ValidLattice, h: array<nat>) returns (changed: bool)
    requires h.Length == L.n && Endo(L, h[..])
    modifies h
    ensures IsGreatestMonoBelow(L, h[..], old(h[..]))
    ensures changed == (h[..] != old(h[..]))
  {
    ghost var h0 := h[..];
    var t := L.topoUpDown;
    changed := false;
    ghost var w: nat := 0;
    forall x | 0 <= x < L.n ensures L.leq[h0[x]][h0[x]] {
    }
    var i := 0;
    while i < L.n
      invariant DownInv(L, h0, h[..], i)
      invariant changed ==> w < i && h[t[w]] != h0[t[w]]
      invariant !changed ==> h[..] == h0
    {
      var x := t[i];
      var z := MeetOfParents(L, h, x);
      DownStep(L, h0, h[..], i);
      if z != h[x] {
        changed := true;
        w := i;
        h[x] := z;
      }
      i := i + 1;
    }
    DownDone(L, h0, h[..]);
  }

  // ---------------------------------------------------------------------
  // monoMinAbove: the dual, one bottom-up pass raising each value to the join of its children's.

  /** The join of h(x) with the values of the first j children of x (the inner loop's z). */
  ghost function ChildJoin(L: ValidLattice, h: seq<nat>, x: nat, j: nat): (z: nat)
    requires Endo(L, h) && x < L.n && j <= |L.children[x]|
    ensures z < L.n
  {
    if j == 0 then h[x]
    else
      var c := L.children[x][j - 1];
      ChildBelow(L, x, c);
      L.lub[ChildJoin(L, h, x, j - 1)][h[c]]
  }

  lemma {:induction false} ChildJoinAbove(L: ValidLattice, h: seq<nat>, x: nat, j: nat)
    requires Endo(L, h) && x < L.n && j <= |L.children[x]|
    ensures ChildJoin(L, h, x, j) < L.n && L.leq[h[x]][ChildJoin(L, h, x, j)]
    ensures forall j' :: 0 <= j' < j ==> L.leq[h[L.children[x][j']]][ChildJoin(L, h, x, j)]
  {
    if j > 0 {
      ChildJoinAbove(L, h, x, j - 1);
      var z := ChildJoin(L, h, x, j - 1);
      var c := L.children[x][j - 1];
      ChildBelow(L, x, c);
      LubFacts(L, z, h[c]);
      var r := L.lub[z][h[c]];
      assert z < L.n;
      assert h[x] < L.n;
      assert r < L.n;
      assert L.leq[h[x]][z];
      assert L.leq[z][r];
      Trans(L, h[x], z, r);
      forall j' | 0 <= j' < j - 1 ensures L.leq[h[L.children[x][j']]][r] {
        Trans(L, h[L.children[x][j']], z, r);
      }
    }
  }

  /** A monotone g above h stays above the join over the children. */
  lemma {:induction false} ChildJoinBelow(L: ValidLattice, h: seq<nat>, x: nat, j: nat, g: seq<nat>)
    requires Endo(L, h) && x < L.n && j <= |L.children[x]|
    requires Endo(L, g) && Monotone(L, g) && Le(L, h, g)
    ensures L.leq[ChildJoin(L, h, x, j)][g[x]]
  {
    if j > 0 {
      ChildJoinBelow(L, h, x, j - 1, g);
      ChildJoinAbove(L, h, x, j - 1);
      var c := L.children[x][j - 1];
      ChildBelow(L, x, c);
      assert L.leq[g[c]][g[x]] && L.leq[h[c]][g[c]];
      Trans(L, h[c], g[c], g[x]);
      LubLeast(L, ChildJoin(L, h, x, j - 1), h[c], g[x]);
    }
  }

  /** The state of monoMinAbove after visiting the first i elements of topoDownUp. */
  ghost predicate UpInv(L: ValidLattice, h0: seq<nat>, h: seq<nat>, i: nat)
  {
    var t := L.topoDownUp;
    && i <= L.n && Endo(L, h) && Le(L, h0, h) && MonoDominated(L, h, h0)
    && (forall k :: i <= k < L.n ==> h[t[k]] == h0[t[k]])
    && (forall k, c :: 0 <= k < i && c in L.children[t[k]] ==> c < L.n && L.leq[h[c]][h[t[k]]])
  }

  /** Visiting the next element keeps the pass invariant. */
  lemma UpStep(L: ValidLattice, h0: seq<nat>, h: seq<nat>, i: nat)
    requires i < L.n && UpInv(L, h0, h, i)
    ensures var x := L.topoDownUp[i];
      UpInv(L, h0, h[x := ChildJoin(L, h, x, |L.children[x]|)], i + 1)
  {
    var t := L.topoDownUp;
    var x := t[i];
    var cs := L.children[x];
    var z := ChildJoin(L, h, x, |cs|);
    ChildJoinAbove(L, h, x, |cs|);
    var h' := h[x := z];
    assert Le(L, h0, h') by {
      forall y | 0 <= y < L.n ensures L.leq[h0[y]][h'[y]] {
        Trans(L, h0[y], h[y], h'[y]);
      }
    }
    forall g | MonoAbove(L, g, h0) ensures Le(L, h', g) {
      assert Le(L, h, g);
      ChildJoinBelow(L, h, x, |cs|, g);
    }
    forall k | i + 1 <= k < L.n ensures h'[t[k]] == h0[t[k]] {
      PermApart(t, L.n, k, i);
    }
    forall k, c | 0 <= k < i + 1 && c in L.children[t[k]] ensures c < L.n && L.leq[h'[c]][h'[t[k]]] {
      ChildBelow(L, t[k], c);
      if k < i {
        PermApart(t, L.n, k, i);
        if c == x {
          DownUpOrdered(L, k, i);
        }
      } else {
        var j' :| 0 <= j' < |cs| && cs[j'] == c;
      }
    }
  }

  /** A finished pass is the least monotone map above the start. */
  lemma UpDone(L: ValidLattice, h0: seq<nat>, h: seq<nat>)
    requires UpInv(L, h0, h, L.n)
    ensures IsLeastMonoAbove(L, h, h0)
  {
    var t := L.topoDownUp;
    forall b, c | 0 <= b < L.n && c in L.children[b] ensures L.leq[h[c]][h[b]] {
      var k := IndexOf(t, L.n, b);
    }
    CoverMonotoneIsMonotone(L, h);
  }

  /** The inner loop of monoMinAbove (lattices.js:440-441): h(x) joined with every child's value. */
  method JoinOfChildren(L: ValidLattice, h: array<nat>, x: nat) returns (z: nat)
    requires h.Length == L.n && Endo(L, h[..]) && x < L.n
    ensures z == ChildJoin(L, h[..], x, |L.children[x]|)
  {
    z := h[x];
    var cs := L.children[x];
    var j := 0;
    while j < |cs|
      invariant 0 <= j <= |cs|
      invariant z == ChildJoin(L, h[..], x, j)
    {
      ChildBelow(L, x, cs[j]);
      z := L.lub[z][h[cs[j]]];
      j := j + 1;
    }
  }

  /**
   * Least monotone map above h, in place (lattices.js:434-445): visit the
   * elements bottom-up and raise each one to the join of its children's values.
   */
  method MonoMinAbove(L: ValidLattice, h: array<nat>) returns (changed: bool)
    requires h.Length == L.n && Endo(L, h[..])
    modifies h
    ensures IsLeastMonoAbove(L, h[..], old(h[..]))
    ensures changed == (h[..] != old(h[..]))
  {
    ghost var h0 := h[..];
    var t := L.topoDownUp;
    changed := false;
    ghost var w: nat := 0;
    forall x | 0 <= x < L.n ensures L.leq[h0[x]][h0[x]] {
    }
    var i := 0;
    while i < L.n
      invariant UpInv(L, h0, h[..], i)
      invariant changed ==> w < i && h[t[w]] != h0[t[w]]
      invariant !changed ==> h[..] == h0
    {
      var x := t[i];
      var z := JoinOfChildren(L, h, x);
      UpStep(L, h0, h[..], i);
      if z != h[x] {
        changed := true;
        w := i;
        h[x] := z;
      }
      i := i + 1;
    }
    UpDone(L, h0, h[..]);
  }

  // ---------------------------------------------------------------------
  // joinMaxBelow.

  /** The second repair: lower h(a), then h(b), to their meets with h(a v b). */
  ghost function MeetRepair(L: ValidLattice, h: seq<nat>, a: nat, b: nat): seq<nat>
    requires Endo(L, h) && a < L.n && b < L.n
  {
    var ab := L.lub[a][b];
    LubFacts(L, a, b);
    LubFacts(L, h[a], h[ab]);
    var h1 := h[a := L.glb[h[a]][h[ab]]];
    LubFacts(L, h[b], h1[ab]);
    h1[b := L.glb[h1[b]][h1[ab]]]
  }

  /** When h(a v b) is not above both h(a) and h(b), the second repair strictly lowers h. */
  lemma MeetRepairSound(L: ValidLattice, h: seq<nat>, f: seq<nat>, a: nat, b: nat)
    requires Endo(L, h) && Dominates(L, h, f) && a < L.n && b < L.n
    requires !(L.leq[h[a]][h[L.lub[a][b]]] && L.leq[h[b]][h[L.lub[a][b]]])
    ensures Endo(L, MeetRepair(L, h, a, b)) && Le(L, MeetRepair(L, h, a, b), h)
    ensures MeetRepair(L, h, a, b) != h && Dominates(L, MeetRepair(L, h, a, b), f)
  {
    var ab := L.lub[a][b];
    LubFacts(L, a, b);
    var r := MeetRepair(L, h, a, b);
    LubFacts(L, h[a], h[ab]);
    DominatesMeetStep(L, h, f, a, ab);
    var h1 := h[a := L.glb[h[a]][h[ab]]];
    LubFacts(L, h1[b], h1[ab]);
    DominatesMeetStep(L, h1, f, b, ab);
    forall y | 0 <= y < L.n ensures L.leq[r[y]][h[y]] {
      if y == a {
        assert L.leq[h1[a]][h[a]];
      }
    }
    if !L.leq[h[a]][h[ab]] {
      assert r[a] != h[a];
    } else {
      assert h1[ab] == h[ab];
      assert r[b] != h[b];
    }
  }

  /** The map after one repair of the pair (a, b) (lattices.js:461-467). */
  ghost function Repaired(L: ValidLattice, h: seq<nat>, a: nat, b: nat): seq<nat>
    requires Endo(L, h) && a < L.n && b < L.n
  {
    var ab := L.lub[a][b];
    LubFacts(L, a, b);
    var c := L.lub[h[a]][h[b]];
    LubFacts(L, h[a], h[b]);
    if L.gt[h[ab]][c] then h[ab := c] else MeetRepair(L, h, a, b)
  }

  /**
   * Repairing an inconsistent pair strictly lowers h and keeps every
   * join-preserving g <= f below it.
   */
  lemma RepairedSound(L: ValidLattice, h: seq<nat>, f: seq<nat>, a: nat, b: nat)
    requires Endo(L, h) && Dominates(L, h, f) && a < L.n && b < L.n
    requires !Consistent(L, h, a, b)
    ensures Endo(L, Repaired(L, h, a, b)) && Le(L, Repaired(L, h, a, b), h)
    ensures Repaired(L, h, a, b) != h && Dominates(L, Repaired(L, h, a, b), f)
  {
    var ab := L.lub[a][b];
    var c := L.lub[h[a]][h[b]];
    LubFacts(L, a, b);
    LubFacts(L, h[a], h[b]);
    Strict(L, h[ab], c);
    if L.gt[h[ab]][c] {
      DominatesJoinStep(L, h, f, a, b, c);
      var r := h[ab := c];
      forall y | 0 <= y < L.n ensures L.leq[r[y]][h[y]] {
      }
    } else {
      if L.leq[h[a]][h[ab]] && L.leq[h[b]][h[ab]] {
        LubLeast(L, h[a], h[b], h[ab]);
        assert false;
      }
      MeetRepairSound(L, h, f, a, b);
    }
  }

  /** One repair of joinMaxBelow, in place. */
  method RepairPair(L: ValidLattice, h: array<nat>, a: nat, b: nat)
    requires h.Length == L.n && Endo(L, h[..]) && a < L.n && b < L.n
    modifies h
    ensures h[..] == Repaired(L, old(h[..]), a, b)
  {
    var ab := L.lub[a][b];
    LubFacts(L, a, b);
    var c := L.lub[h[a]][h[b]];
    LubFacts(L, h[a], h[b]);
    if L.gt[h[ab]][c] {
      h[ab] := c;
    } else {
      LubFacts(L, h[a], h[ab]);
      h[a] := L.glb[h[a]][h[ab]];
      LubFacts(L, h[b], h[ab]);
      h[b] := L.glb[h[b]][h[ab]];
    }
  }

  /**
   * The inner loop of joinMaxBelow (lattices.js:458-467) for one a: repair every
   * inconsistent pair (a, b) with a < b. It reports whether it changed h.
   */
  method RepairRow(L: ValidLattice, h: array<nat>, a: nat, ghost f: seq<nat>) returns (changed: bool)
    requires h.Length == L.n && a < L.n && Endo(L, h[..]) && Dominates(L, h[..], f)
    modifies h
    ensures Le(L, h[..], old(h[..])) && Dominates(L, h[..], f)
    ensures changed == (h[..] != old(h[..]))
    ensures changed ==> Measure(L, h[..]) < Measure(L, old(h[..]))
    ensures !changed ==> forall b :: a < b < L.n ==> Consistent(L, h[..], a, b)
  {
    ghost var hs := h[..];
    forall x | 0 <= x < L.n ensures L.leq[hs[x]][hs[x]] {
    }
    changed := false;
    var b := a + 1;
    while b < L.n
      invariant a + 1 <= b <= L.n
      invariant Le(L, h[..], hs) && Dominates(L, h[..], f)
      invariant changed ==> Measure(L, h[..]) < Measure(L, hs)
      invariant !changed ==> h[..] == hs
      invariant !changed ==> forall b' :: a < b' < b ==> Consistent(L, h[..], a, b')
    {
      var ab := L.lub[a][b];
      var c := L.lub[h[a]][h[b]];
      if h[ab] != c {
        ghost var hb := h[..];
        RepairedSound(L, hb, f, a, b);
        RepairPair(L, h, a, b);
        LeTrans(L, h[..], hb, hs);
        MeasureDecreases(L, h[..], hb);
        MeasureDecreases(L, hb, hs);
        changed := true;
      }
      b := b + 1;
    }
  }

  /** One sweep of joinMaxBelow over all pairs a < b (lattices.js:456-468). */
  method Sweep(L: ValidLattice, h: array<nat>, ghost f: seq<nat>) returns (changed: bool)
    requires h.Length == L.n && Endo(L, h[..]) && Dominates(L, h[..], f)
    modifies h
    ensures Le(L, h[..], old(h[..])) && Dominates(L, h[..], f)
    ensures changed == (h[..] != old(h[..]))
    ensures changed ==> Measure(L, h[..]) < Measure(L, old(h[..]))
    ensures !changed ==> JoinPreserving(L, h[..])
  {
    ghost var hs := h[..];
    forall x | 0 <= x < L.n ensures L.leq[hs[x]][hs[x]] {
    }
    changed := false;
    var a := 0;
    while a < L.n
      invariant 0 <= a <= L.n
      invariant Le(L, h[..], hs) && Dominates(L, h[..], f)
      invariant changed ==> Measure(L, h[..]) < Measure(L, hs)
      invariant !changed ==> h[..] == hs
      invariant !changed ==> forall a', b' :: 0 <= a' < a && a' < b' < L.n ==> Consistent(L, h[..], a', b')
    {
      ghost var hb := h[..];
      var rowChanged := RepairRow(L, h, a, f);
      LeTrans(L, h[..], hb, hs);
      MeasureDecreases(L, hb, hs);
      changed := changed || rowChanged;
      a := a + 1;
    }
    if !changed {
      PairsSuffice(L, h[..]);
    } else {
      assert h[..] != hs;
    }
  }

  /**
   * Greatest join-preserving map below h, in place (lattices.js:449-472):
   * sweep all pairs a < b, repairing inconsistent ones, until a sweep changes nothing.
   */
  method JoinMaxBelow(L: ValidLattice, h: array<nat>) returns (everChanged: bool)
    requires h.Length == L.n && Endo(L, h[..])
    modifies h
    ensures IsGreatestJoinBelow(L, h[..], old(h[..]))
    ensures everChanged == (h[..] != old(h[..]))
  {
    ghost var h0 := h[..];
    forall x | 0 <= x < L.n ensures L.leq[h0[x]][h0[x]] {
    }
    var changed := true;
    everChanged := false;
    while changed
      invariant Le(L, h[..], h0) && Dominates(L, h[..], h0)
      invariant !changed ==> JoinPreserving(L, h[..])
      invariant everChanged == (h[..] != h0)
      decreases Measure(L, h[..]) + (if changed then 1 else 0)
    {
      ghost var hs := h[..];
      changed := Sweep(L, h, h0);
      LeTrans(L, h[..], hs, h0);
      if h[..] == h0 && hs != h0 {
        LeAntisym(L, hs, h0);
      }
      everChanged := everChanged || changed;
    }
  }
}
