/**
 * The sweep-based solvers of latticeAlgorithms (lattices.js:565-635): each one
 * starts from the meet of f and g, repeatedly lowers entries of a fresh copy h,
 * and returns the greatest join-preserving map below that start.
 * The operation counters the source keeps beside h are not modelled.
 */
module Solvers {
  import opened Utils
  import opened Lattices
  import opened Endos
  import opened Closures

  /** The value every solver starts from: f met pointwise with g, or f alone. */
  function Start(L: ValidLattice, f: seq<nat>, g: Option<seq<nat>>): (h: seq<nat>)
    requires Endo(L, f) && (g.Some? ==> Endo(L, g.value))
  {
    seq(L.n, x requires 0 <= x < L.n => L.glb[f[x]][if g.Some? then g.value[x] else L.top])
  }

  /** The start is the pointwise meet of f and g: below both, above all that is below both. */
  lemma StartIsMeet(L: ValidLattice, f: seq<nat>, g: Option<seq<nat>>, e: seq<nat>)
    requires Endo(L, f) && (g.Some? ==> Endo(L, g.value))
    ensures Endo(L, Start(L, f, g)) && Le(L, Start(L, f, g), f)
    ensures g.Some? ==> Le(L, Start(L, f, g), g.value)
    ensures g.None? ==> Start(L, f, g) == f
    ensures Le(L, e, f) && (g.Some? ==> Le(L, e, g.value)) ==> Le(L, e, Start(L, f, g))
  {
    var h := Start(L, f, g);
    forall x | 0 <= x < L.n
      ensures h[x] < L.n && L.leq[h[x]][f[x]]
      ensures g.Some? ==> L.leq[h[x]][g.value[x]]
      ensures g.None? ==> h[x] == f[x]
      ensures Le(L, e, f) && (g.Some? ==> Le(L, e, g.value)) ==> L.leq[e[x]][h[x]]
    {
      var y := if g.Some? then g.value[x] else L.top;
      LubFacts(L, f[x], y);
      if Le(L, e, f) && (g.Some? ==> Le(L, e, g.value)) {
        GlbGreatest(L, f[x], y, e[x]);
      }
    }
  }

  /** A fresh array holding s. */
  method ToArray(s: seq<nat>) returns (h: array<nat>)
    ensures fresh(h) && h[..] == s
  {
    h := new nat[|s|];
    var i := 0;
    while i < |s|
      invariant 0 <= i <= |s|
      invariant h[..i] == s[..i]
      modifies h
    {
      h[i] := s[i];
      i := i + 1;
    }
  }

  /** The start array of the solvers that meet with top when g is absent (lattices.js:568). */
  method StartWithTop(L: ValidLattice, f: seq<nat>, g: Option<seq<nat>>) returns (h: array<nat>)
    requires Endo(L, f) && (g.Some? ==> Endo(L, g.value))
    ensures fresh(h) && h[..] == Start(L, f, g)
  {
    var s: seq<nat> := [];
    var x := 0;
    while x < L.n
      invariant 0 <= x <= L.n && |s| == x
      invariant forall y :: 0 <= y < x ==> s[y] == Start(L, f, g)[y]
    {
      s := s + [L.glb[f[x]][if g.Some? then g.value[x] else L.top]];
      x := x + 1;
    }
    h := ToArray(s);
  }

  /** The start array of the solvers that copy f when g is absent (lattices.js:618). */
  method StartCopy(L: ValidLattice, f: seq<nat>, g: Option<seq<nat>>) returns (h: array<nat>)
    requires Endo(L, f) && (g.Some? ==> Endo(L, g.value))
    ensures fresh(h) && h[..] == Start(L, f, g)
  {
    StartIsMeet(L, f, g, f);
    var s: seq<nat> := [];
    var x := 0;
    while x < L.n
      invariant 0 <= x <= L.n && |s| == x
      invariant forall y :: 0 <= y < x ==> s[y] == Start(L, f, g)[y]
    {
      s := s + [if g.Some? then L.glb[f[x]][g.value[x]] else f[x]];
      x := x + 1;
    }
    h := ToArray(s);
  }

  /** Every map dominates (is above everything join-preserving below) itself. */
  lemma DominatesSelf(L: ValidLattice, h: seq<nat>)
    requires Endo(L, h)
    ensures Le(L, h, h) && Dominates(L, h, h)
  {
    forall x | 0 <= x < L.n ensures L.leq[h[x]][h[x]] {
    }
  }

  /** Lowering through the greatest monotone map below keeps every join-preserving g below. */
  lemma DominatesThroughMono(L: ValidLattice, h: seq<nat>, hm: seq<nat>, f: seq<nat>)
    requires Dominates(L, hm, f) && MonoDominates(L, h, hm)
    ensures Dominates(L, h, f)
  {
    forall g | JoinBelow(L, g, f) ensures Le(L, g, h) {
      JoinPreservingIsMonotone(L, g);
      assert MonoBelow(L, g, hm);
    }
  }

  /** Lowering one entry gives a map below the old one, different when the value differs. */
  lemma LowerOne(L: ValidLattice, h: seq<nat>, y: nat, v: nat)
    requires Endo(L, h) && y < L.n && v < L.n && L.leq[v][h[y]]
    ensures Le(L, h[y := v], h) && (v != h[y] ==> h[y := v] != h)
  {
    var r := h[y := v];
    forall x | 0 <= x < L.n ensures L.leq[r[x]][h[x]] {
    }
    assert r[y] == v;
  }

  /** A monotone map is consistent on comparable pairs. */
  lemma MonotoneComparable(L: ValidLattice, h: seq<nat>, a: nat, b: nat)
    requires Endo(L, h) && Monotone(L, h) && a < L.n && b < L.n
    requires L.leq[a][b] || L.leq[b][a]
    ensures Consistent(L, h, a, b)
  {
    LubFacts(L, a, b);
    LubFacts(L, h[a], h[b]);
  }

  /** For a monotone map, h(a) v h(b) <= h(a v b) always. */
  lemma MonotoneJoinBelow(L: ValidLattice, h: seq<nat>, a: nat, b: nat)
    requires Endo(L, h) && Monotone(L, h) && a < L.n && b < L.n
    ensures L.leq[L.lub[h[a]][h[b]]][h[L.lub[a][b]]]
  {
    LubFacts(L, a, b);
    LubLeast(L, h[a], h[b], h[L.lub[a][b]]);
  }

  /**
   * A monotone map consistent on every listed incomparable pair preserves all joins:
   * the remaining pairs are comparable.
   */
  lemma UncomparablesSuffice(L: ValidLattice, h: seq<nat>)
    requires Endo(L, h) && Monotone(L, h)
    requires forall i :: 0 <= i < |L.uncomparables| ==>
      var (a, b) := L.uncomparables[i]; a < L.n && b < L.n && Consistent(L, h, a, b)
    ensures JoinPreserving(L, h)
  {
    forall a, b | 0 <= a < b < L.n ensures Consistent(L, h, a, b) {
      Uncomparable(L, a, b);
      if L.leq[a][b] || L.leq[b][a] {
        MonotoneComparable(L, h, a, b);
      } else {
        var i :| 0 <= i < |L.uncomparables| && L.uncomparables[i] == (a, b);
      }
    }
    PairsSuffice(L, h);
  }

  // ---------------------------------------------------------------------
  // GMeetNaiveLoop: sweep all pairs, fixing conflicts immediately, until a sweep changes nothing.

  /** lattices.js:565-588: the greatest join-preserving map below the meet of f and g. */
  method GMeetNaiveLoop(L: ValidLattice, f: seq<nat>, g: Option<seq<nat>>) returns (r: seq<nat>)
    requires Endo(L, f) && (g.Some? ==> Endo(L, g.value))
    ensures IsGreatestJoinBelow(L, r, Start(L, f, g))
  {
    var h := StartWithTop(L, f, g);
    ghost var h0 := h[..];
    StartIsMeet(L, f, g, f);
    DominatesSelf(L, h0);
    var changed := true;
    while changed
      invariant Le(L, h[..], h0) && Dominates(L, h[..], h0)
      invariant !changed ==> JoinPreserving(L, h[..])
      decreases Measure(L, h[..]) + (if changed then 1 else 0)
    {
      ghost var hs := h[..];
      changed := Sweep(L, h, h0);
      LeTrans(L, h[..], hs, h0);
    }
    r := h[..];
  }

  // ---------------------------------------------------------------------
  // GMeetMonoLate: monotone closure, then lower h(a v b) to its meet with h(a) v h(b)
  // for every incomparable pair, and close again, until nothing changes.

  /** One pass over the incomparable pairs (lattices.js:622-633). */
  method LatePass(L: ValidLattice, h: array<nat>, ghost f: seq<nat>) returns (changed: bool)
    requires h.Length == L.n && Endo(L, h[..]) && Monotone(L, h[..]) && Dominates(L, h[..], f)
    modifies h
    ensures Le(L, h[..], old(h[..])) && Dominates(L, h[..], f)
    ensures changed == (h[..] != old(h[..]))
    ensures changed ==> Measure(L, h[..]) < Measure(L, old(h[..]))
    ensures !changed ==> JoinPreserving(L, h[..])
  {
    ghost var hs := h[..];
    DominatesSelf(L, hs);
    var us := L.uncomparables;
    changed := false;
    var i := 0;
    while i < |us|
      invariant 0 <= i <= |us|
      invariant Le(L, h[..], hs) && Dominates(L, h[..], f)
      invariant changed ==> Measure(L, h[..]) < Measure(L, hs)
      invariant !changed ==> h[..] == hs
      invariant !changed ==> forall k :: 0 <= k < i ==>
        var (a, b) := us[k]; a < L.n && b < L.n && Consistent(L, h[..], a, b)
    {
      var (a, b) := us[i];
      Uncomparable(L, a, b);
      var ab := L.lub[a][b];
      var c := L.lub[h[a]][h[b]];
      Strict(L, c, h[ab]);
      if !L.geq[c][h[ab]] {
        ghost var hb := h[..];
        LubFacts(L, h[ab], c);
        DominatesJoinStep(L, hb, f, a, b, L.glb[h[ab]][c]);
        h[ab] := L.glb[h[ab]][c];
        LowerOne(L, hb, ab, h[ab]);
        LeTrans(L, h[..], hb, hs);
        MeasureDecreases(L, h[..], hb);
        MeasureDecreases(L, hb, hs);
        changed := true;
      } else if !changed {
        MonotoneJoinBelow(L, h[..], a, b);
        Antisym(L, c, h[ab]);
      }
      i := i + 1;
    }
    if !changed {
      UncomparablesSuffice(L, h[..]);
    }
  }

  /** lattices.js:616-635: the greatest join-preserving map below the meet of f and g. */
  method GMeetMonoLate(L: ValidLattice, f: seq<nat>, g: Option<seq<nat>>) returns (r: seq<nat>)
    requires Endo(L, f) && (g.Some? ==> Endo(L, g.value))
    ensures IsGreatestJoinBelow(L, r, Start(L, f, g))
  {
    var h := StartCopy(L, f, g);
    ghost var h0 := h[..];
    StartIsMeet(L, f, g, f);
    DominatesSelf(L, h0);
    var _ := MonoMaxBelow(L, h);
    MonoDominatesJoin(L, h[..], h0);
    var changed := true;
    while changed
      invariant Le(L, h[..], h0) && Dominates(L, h[..], h0) && Monotone(L, h[..])
      invariant !changed ==> JoinPreserving(L, h[..])
      decreases Measure(L, h[..]) + (if changed then 1 else 0)
    {
      ghost var hs := h[..];
      changed := LatePass(L, h, h0);
      LeTrans(L, h[..], hs, h0);
      if changed {
        ghost var hm := h[..];
        var _ := MonoMaxBelow(L, h);
        DominatesThroughMono(L, h[..], hm, h0);
        LeTrans(L, h[..], hm, h0);
        MeasureDecreases(L, h[..], hm);
      }
    }
    r := h[..];
  }

  // ---------------------------------------------------------------------
  // GMeetMonoNaive: monotone closure, then for every conflicting incomparable pair
  // lower everything below a v b to its meet with h(a) v h(b).

  /** h with every x <= y lowered to its meet with c (the inner loop at lattices.js:606-608). */
  ghost function LoweredBelow(L: ValidLattice, h: seq<nat>, y: nat, c: nat): (r: seq<nat>)
    requires Endo(L, h) && y < L.n && c < L.n
    ensures Endo(L, r)
  {
    seq(L.n, x requires 0 <= x < L.n => if L.leq[x][y] then L.glb[h[x]][c] else h[x])
  }

  /** glb(u, c) <= glb(v, c) when u <= v, and glb(u, c) <= u. */
  lemma MeetWithMono(L: ValidLattice, u: nat, v: nat, c: nat)
    requires u < L.n && v < L.n && c < L.n && L.leq[u][v]
    ensures L.leq[L.glb[u][c]][L.glb[v][c]] && L.leq[L.glb[u][c]][v]
  {
    LubFacts(L, c, c);
    GlbMono(L, u, c, v, c);
    LubFacts(L, u, c);
    Trans(L, L.glb[u][c], u, v);
  }

  /** Lowering the down-set of y to c keeps h monotone and only lowers it. */
  lemma LoweredBelowMonotone(L: ValidLattice, h: seq<nat>, y: nat, c: nat)
    requires Endo(L, h) && Monotone(L, h) && y < L.n && c < L.n
    ensures Le(L, LoweredBelow(L, h, y, c), h) && Monotone(L, LoweredBelow(L, h, y, c))
  {
    var r := LoweredBelow(L, h, y, c);
    forall x | 0 <= x < L.n ensures L.leq[r[x]][h[x]] {
      LubFacts(L, h[x], c);
    }
    forall p, q | 0 <= p < L.n && 0 <= q < L.n && L.leq[p][q] ensures L.leq[r[p]][r[q]] {
      if L.leq[p][y] {
        MeetWithMono(L, h[p], h[q], c);
      } else if L.leq[q][y] {
        Trans(L, p, q, y);
      }
    }
  }

  /**
   * Lowering the down-set of a v b to h(a) v h(b) keeps every join-preserving
   * g <= f below h, and changes h when the pair conflicts.
   */
  lemma LoweredBelowSound(L: ValidLattice, h: seq<nat>, f: seq<nat>, a: nat, b: nat)
    requires Endo(L, h) && Monotone(L, h) && Dominates(L, h, f) && a < L.n && b < L.n
    ensures var r := LoweredBelow(L, h, L.lub[a][b], L.lub[h[a]][h[b]]);
      Dominates(L, r, f) && (h[L.lub[a][b]] != L.lub[h[a]][h[b]] ==> r != h)
  {
    var y := L.lub[a][b];
    var c := L.lub[h[a]][h[b]];
    var r := LoweredBelow(L, h, y, c);
    LubFacts(L, a, b);
    forall g | JoinBelow(L, g, f) ensures Le(L, g, r) {
      assert Le(L, g, h);
      JoinPreservingIsMonotone(L, g);
      assert Consistent(L, g, a, b);
      LubMono(L, g[a], g[b], h[a], h[b]);
      forall x | 0 <= x < L.n ensures L.leq[g[x]][r[x]] {
        if L.leq[x][y] {
          Trans(L, g[x], g[y], c);
          GlbGreatest(L, h[x], c, g[x]);
        }
      }
    }
    if h[y] != c {
      MonotoneJoinBelow(L, h, a, b);
      LubFacts(L, c, h[y]);
      assert r[y] == L.glb[h[y]][c];
    }
  }

  /** The inner loop of GMeetMonoNaive, in place (lattices.js:606-608). */
  method LowerBelow(L: ValidLattice, h: array<nat>, y: nat, c: nat)
    requires h.Length == L.n && Endo(L, h[..]) && y < L.n && c < L.n
    modifies h
    ensures h[..] == LoweredBelow(L, old(h[..]), y, c)
  {
    ghost var h0 := h[..];
    var x := 0;
    while x < L.n
      invariant 0 <= x <= L.n && Endo(L, h[..])
      invariant forall z :: 0 <= z < x ==> h[z] == LoweredBelow(L, h0, y, c)[z]
      invariant forall z :: x <= z < L.n ==> h[z] == h0[z]
    {
      if L.leq[x][y] {
        h[x] := L.glb[h[x]][c];
      }
      x := x + 1;
    }
  }

  /** One pass over the incomparable pairs (lattices.js:598-610). */
  method NaivePass(L: ValidLattice, h: array<nat>, ghost f: seq<nat>) returns (changed: bool)
    requires h.Length == L.n && Endo(L, h[..]) && Monotone(L, h[..]) && Dominates(L, h[..], f)
    modifies h
    ensures Le(L, h[..], old(h[..])) && Monotone(L, h[..]) && Dominates(L, h[..], f)
    ensures changed == (h[..] != old(h[..]))
    ensures changed ==> Measure(L, h[..]) < Measure(L, old(h[..]))
    ensures !changed ==> JoinPreserving(L, h[..])
  {
    ghost var hs := h[..];
    DominatesSelf(L, hs);
    var us := L.uncomparables;
    changed := false;
    var i := 0;
    while i < |us|
      invariant 0 <= i <= |us|
      invariant Le(L, h[..], hs) && Monotone(L, h[..]) && Dominates(L, h[..], f)
      invariant changed ==> Measure(L, h[..]) < Measure(L, hs)
      invariant !changed ==> h[..] == hs
      invariant !changed ==> forall k :: 0 <= k < i ==>
        var (a, b) := us[k]; a < L.n && b < L.n && Consistent(L, h[..], a, b)
    {
      var (a, b) := us[i];
      Uncomparable(L, a, b);
      var ab := L.lub[a][b];
      var c := L.lub[h[a]][h[b]];
      if h[ab] != c {
        ghost var hb := h[..];
        LoweredBelowMonotone(L, hb, ab, c);
        LoweredBelowSound(L, hb, f, a, b);
        LowerBelow(L, h, ab, c);
        LeTrans(L, h[..], hb, hs);
        MeasureDecreases(L, h[..], hb);
        MeasureDecreases(L, hb, hs);
        changed := true;
      }
      i := i + 1;
    }
    if !changed {
      UncomparablesSuffice(L, h[..]);
    }
  }

  /** lattices.js:591-612: the greatest join-preserving map below the meet of f and g. */
  method GMeetMonoNaive(L: ValidLattice, f: seq<nat>, g: Option<seq<nat>>) returns (r: seq<nat>)
    requires Endo(L, f) && (g.Some? ==> Endo(L, g.value))
    ensures IsGreatestJoinBelow(L, r, Start(L, f, g))
  {
    var h := StartWithTop(L, f, g);
    ghost var h0 := h[..];
    StartIsMeet(L, f, g, f);
    DominatesSelf(L, h0);
    var _ := MonoMaxBelow(L, h);
    MonoDominatesJoin(L, h[..], h0);
    var changed := true;
    while changed
      invariant Le(L, h[..], h0) && Dominates(L, h[..], h0) && Monotone(L, h[..])
      invariant !changed ==> JoinPreserving(L, h[..])
      decreases Measure(L, h[..]) + (if changed then 1 else 0)
    {
      ghost var hs := h[..];
      changed := NaivePass(L, h, h0);
      LeTrans(L, h[..], hs, h0);
    }
    r := h[..];
  }
}
