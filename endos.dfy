/**
 * Maps from a lattice to itself (the `f`, `g` and `h` arrays of lattices.js,
 * indexed by element) and the properties the solvers aim for: monotone,
 * join-preserving, pointwise below a start value, and greatest among those.
 */
module Endos {
  import opened Lattices

  /** h maps every element to an element. */
  ghost predicate Endo(L: ValidLattice, h: seq<nat>) {
    |h| == L.n && forall x :: 0 <= x < |h| ==> h[x] < L.n
  }

  /** Pointwise order: u[x] <= v[x] for every element x. */
  ghost predicate Le(L: ValidLattice, u: seq<nat>, v: seq<nat>)
  {
    Endo(L, u) && Endo(L, v) && forall x :: 0 <= x < L.n ==> L.leq[u[x]][v[x]]
  }

  ghost predicate Monotone(L: ValidLattice, h: seq<nat>)
    requires Endo(L, h)
  {
    forall a, b {:trigger h[a], h[b]} :: 0 <= a < L.n && 0 <= b < L.n && L.leq[a][b] ==> L.leq[h[a]][h[b]]
  }

  /** h(a v b) == h(a) v h(b): what every solver checks pair by pair. */
  ghost predicate Consistent(L: ValidLattice, h: seq<nat>, a: nat, b: nat)
    requires Endo(L, h) && a < L.n && b < L.n
  {
    h[L.lub[a][b]] == L.lub[h[a]][h[b]]
  }

  ghost predicate JoinPreserving(L: ValidLattice, h: seq<nat>)
    requires Endo(L, h)
  {
    forall a, b :: 0 <= a < L.n && 0 <= b < L.n ==> Consistent(L, h, a, b)
  }

  /** g is a join-preserving map pointwise below f. */
  ghost predicate JoinBelow(L: ValidLattice, g: seq<nat>, f: seq<nat>)
  {
    Endo(L, g) && JoinPreserving(L, g) && Le(L, g, f)
  }

  /** Every join-preserving map below f is below h. */
  ghost predicate Dominates(L: ValidLattice, h: seq<nat>, f: seq<nat>)
  {
    forall g :: JoinBelow(L, g, f) ==> Le(L, g, h)
  }

  /** h is the greatest join-preserving map pointwise below f. */
  ghost predicate IsGreatestJoinBelow(L: ValidLattice, h: seq<nat>, f: seq<nat>)
  {
    JoinBelow(L, h, f) && Dominates(L, h, f)
  }

  /** g is a monotone map pointwise below f. */
  ghost predicate MonoBelow(L: ValidLattice, g: seq<nat>, f: seq<nat>)
  {
    Endo(L, g) && Monotone(L, g) && Le(L, g, f)
  }

  ghost predicate MonoDominates(L: ValidLattice, h: seq<nat>, f: seq<nat>)
  {
    forall g :: MonoBelow(L, g, f) ==> Le(L, g, h)
  }

  /** h is the greatest monotone map pointwise below f. */
  ghost predicate IsGreatestMonoBelow(L: ValidLattice, h: seq<nat>, f: seq<nat>)
  {
    MonoBelow(L, h, f) && MonoDominates(L, h, f)
  }

  /** g is a monotone map pointwise above f. */
  ghost predicate MonoAbove(L: ValidLattice, g: seq<nat>, f: seq<nat>)
  {
    Endo(L, g) && Monotone(L, g) && Le(L, f, g)
  }

  ghost predicate MonoDominated(L: ValidLattice, h: seq<nat>, f: seq<nat>)
  {
    forall g :: MonoAbove(L, g, f) ==> Le(L, h, g)
  }

  /** h is the least monotone map pointwise above f. */
  ghost predicate IsLeastMonoAbove(L: ValidLattice, h: seq<nat>, f: seq<nat>)
  {
    MonoAbove(L, h, f) && MonoDominated(L, h, f)
  }

  // ---------------------------------------------------------------------
  // The pointwise order.

  lemma LeTrans(L: ValidLattice, u: seq<nat>, v: seq<nat>, w: seq<nat>)
    requires Le(L, u, v) && Le(L, v, w)
    ensures Le(L, u, w)
  {
    forall x | 0 <= x < L.n ensures L.leq[u[x]][w[x]] {
      Trans(L, u[x], v[x], w[x]);
    }
  }

  lemma LeAntisym(L: ValidLattice, u: seq<nat>, v: seq<nat>)
    requires Le(L, u, v) && Le(L, v, u)
    ensures u == v
  {
    forall x | 0 <= x < L.n ensures u[x] == v[x] {
      Antisym(L, u[x], v[x]);
    }
  }

  // ---------------------------------------------------------------------
  // The termination measure: the sum of the heights of all values.

  ghost function Measure(L: ValidLattice, h: seq<nat>): nat
    requires forall x :: 0 <= x < |h| ==> h[x] < L.n
  {
    if h == [] then 0 else Measure(L, h[..|h| - 1]) + Height(L, h[|h| - 1])
  }

  lemma {:induction false} MeasurePrefix(L: ValidLattice, u: seq<nat>, v: seq<nat>)
    requires |u| == |v|
    requires forall x :: 0 <= x < |u| ==> u[x] < L.n && v[x] < L.n && L.leq[u[x]][v[x]]
    ensures Measure(L, u) <= Measure(L, v)
    ensures u != v ==> Measure(L, u) < Measure(L, v)
  {
    if u != [] {
      var k := |u| - 1;
      MeasurePrefix(L, u[..k], v[..k]);
      HeightMono(L, u[k], v[k]);
      if u != v && u[..k] == v[..k] {
        assert u[k] != v[k] by {
          assert u == u[..k] + [u[k]] && v == v[..k] + [v[k]];
        }
      }
    }
  }

  /** Lowering a map strictly lowers its measure. */
  lemma MeasureDecreases(L: ValidLattice, u: seq<nat>, v: seq<nat>)
    requires Le(L, u, v)
    ensures Measure(L, u) <= Measure(L, v)
    ensures u != v ==> Measure(L, u) < Measure(L, v)
  {
    MeasurePrefix(L, u, v);
  }

  // ---------------------------------------------------------------------
  // Monotonicity.

  /** A join-preserving map is monotone: a <= b means a v b == b. */
  lemma JoinPreservingIsMonotone(L: ValidLattice, h: seq<nat>)
    requires Endo(L, h) && JoinPreserving(L, h)
    ensures Monotone(L, h)
  {
    forall a, b | 0 <= a < L.n && 0 <= b < L.n && L.leq[a][b]
      ensures L.leq[h[a]][h[b]]
    {
      LubFacts(L, a, b);
      assert Consistent(L, h, a, b);
      LubFacts(L, h[a], h[b]);
    }
  }

  /** Monotone along every covering edge. */
  ghost predicate CoverMonotone(L: ValidLattice, h: seq<nat>)
    requires Endo(L, h)
  {
    forall b, c :: 0 <= b < L.n && c in L.children[b] ==> L.leq[h[c]][h[b]]
  }

  lemma {:induction false} CoverMonotoneBelow(L: ValidLattice, h: seq<nat>, a: nat, b: nat, k: nat)
    requires Endo(L, h) && CoverMonotone(L, h)
    requires a < L.n && b < L.n && L.leq[a][b] && Height(L, b) <= k
    ensures L.leq[h[a]][h[b]]
    decreases k
  {
    if a != b {
      var c := BelowSomeChild(L, a, b);
      ChildIsCovered(L, c, b);
      HeightMono(L, c, b);
      CoverMonotoneBelow(L, h, a, c, k - 1);
      Trans(L, h[a], h[c], h[b]);
    }
  }

  /** Monotone along covering edges means monotone (the order is their closure). */
  lemma CoverMonotoneIsMonotone(L: ValidLattice, h: seq<nat>)
    requires Endo(L, h) && CoverMonotone(L, h)
    ensures Monotone(L, h)
  {
    forall a, b | 0 <= a < L.n && 0 <= b < L.n && L.leq[a][b]
      ensures L.leq[h[a]][h[b]]
    {
      CoverMonotoneBelow(L, h, a, b, Height(L, b));
    }
  }

  /** The pairs a < b suffice: a v a == a and the join is symmetric. */
  lemma PairsSuffice(L: ValidLattice, h: seq<nat>)
    requires Endo(L, h)
    requires forall a, b :: 0 <= a < b < L.n ==> Consistent(L, h, a, b)
    ensures JoinPreserving(L, h)
  {
    forall a, b | 0 <= a < L.n && 0 <= b < L.n ensures Consistent(L, h, a, b) {
      LubFacts(L, a, b);
      LubFacts(L, h[a], h[b]);
      if a == b {
        LubFacts(L, h[a], h[a]);
      } else if b < a {
        assert Consistent(L, h, b, a);
      }
    }
  }

  // ---------------------------------------------------------------------
  // The two repairs the solvers perform keep every join-preserving g <= f below h.

  /**
   * Lowering h(a v b) to h(a) v h(b), or to its meet with that join,
   * keeps every join-preserving g <= f below h (lattices.js:462-467).
   */
  lemma DominatesJoinStep(L: ValidLattice, h: seq<nat>, f: seq<nat>, a: nat, b: nat, v: nat)
    requires Endo(L, h) && Dominates(L, h, f) && a < L.n && b < L.n
    requires v == L.lub[h[a]][h[b]] || v == L.glb[h[L.lub[a][b]]][L.lub[h[a]][h[b]]]
    ensures Dominates(L, h[L.lub[a][b] := v], f)
  {
    var ab := L.lub[a][b];
    var c := L.lub[h[a]][h[b]];
    LubFacts(L, a, b);
    LubFacts(L, h[a], h[b]);
    var h' := h[ab := v];
    forall g | JoinBelow(L, g, f) ensures Le(L, g, h') {
      assert Le(L, g, h);
      assert Consistent(L, g, a, b);
      assert L.leq[g[a]][h[a]] && L.leq[g[b]][h[b]] && L.leq[g[ab]][h[ab]];
      LubMono(L, g[a], g[b], h[a], h[b]);
      if v != c {
        GlbGreatest(L, h[ab], c, g[ab]);
      }
      forall x | 0 <= x < L.n ensures L.leq[g[x]][h'[x]] {
        if x != ab {
          assert L.leq[g[x]][h[x]];
        }
      }
    }
  }

  /**
   * For x <= y, lowering h(x) to its meet with h(y) keeps every monotone,
   * so every join-preserving, g <= f below h (lattices.js:466-467).
   */
  lemma DominatesMeetStep(L: ValidLattice, h: seq<nat>, f: seq<nat>, x: nat, y: nat)
    requires Endo(L, h) && Dominates(L, h, f)
    requires x < L.n && y < L.n && L.leq[x][y]
    ensures Dominates(L, h[x := L.glb[h[x]][h[y]]], f)
  {
    var h' := h[x := L.glb[h[x]][h[y]]];
    LubFacts(L, h[x], h[y]);
    forall g | JoinBelow(L, g, f) ensures Le(L, g, h') {
      assert Le(L, g, h);
      JoinPreservingIsMonotone(L, g);
      assert L.leq[g[x]][g[y]] && L.leq[g[y]][h[y]] && L.leq[g[x]][h[x]];
      Trans(L, g[x], g[y], h[y]);
      GlbGreatest(L, h[x], h[y], g[x]);
      forall z | 0 <= z < L.n ensures L.leq[g[z]][h'[z]] {
        if z != x {
          assert L.leq[g[z]][h[z]];
        }
      }
    }
  }

  /** The greatest monotone map below f dominates every join-preserving one. */
  lemma MonoDominatesJoin(L: ValidLattice, h: seq<nat>, f: seq<nat>)
    requires MonoDominates(L, h, f)
    ensures Dominates(L, h, f)
  {
    forall g | JoinBelow(L, g, f) ensures Le(L, g, h) {
      JoinPreservingIsMonotone(L, g);
      assert MonoBelow(L, g, f);
    }
  }

  // ---------------------------------------------------------------------
  // Properties of the answer itself.

  /** Any two solvers that meet the specification agree (index.js compares them). */
  lemma GreatestIsUnique(L: ValidLattice, h1: seq<nat>, h2: seq<nat>, f: seq<nat>)
    requires IsGreatestJoinBelow(L, h1, f) && IsGreatestJoinBelow(L, h2, f)
    ensures h1 == h2
  {
    assert Le(L, h1, h2) && Le(L, h2, h1);
    LeAntisym(L, h1, h2);
  }

  /** Solving again from the answer returns the answer. */
  lemma GreatestIsFixpoint(L: ValidLattice, h: seq<nat>, f: seq<nat>)
    requires IsGreatestJoinBelow(L, h, f)
    ensures IsGreatestJoinBelow(L, h, h)
  {
    forall x | 0 <= x < L.n ensures L.leq[h[x]][h[x]] {
    }
    assert JoinBelow(L, h, h);
    forall g | JoinBelow(L, g, h) ensures Le(L, g, h) {
    }
  }

  /** A join-preserving start value is its own answer. */
  lemma JoinPreservingIsGreatest(L: ValidLattice, f: seq<nat>)
    requires Endo(L, f) && JoinPreserving(L, f)
    ensures IsGreatestJoinBelow(L, f, f)
  {
    forall x | 0 <= x < L.n ensures L.leq[f[x]][f[x]] {
    }
  }

  /** The greatest monotone map below f is the answer exactly when it preserves joins. */
  lemma GreatestMonoThenJoin(L: ValidLattice, h: seq<nat>, f: seq<nat>)
    requires IsGreatestMonoBelow(L, h, f)
    ensures IsGreatestJoinBelow(L, h, f) <==> JoinPreserving(L, h)
  {
    MonoDominatesJoin(L, h, f);
  }
}
