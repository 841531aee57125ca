/**
 * The total order 0 < 1 < ... < n-1 as a lattice record (what Lattice.total(n)
 * builds, lattices.js:331-336), written out in closed form and proved valid.
 * The findings about the solvers use it as a concrete input.
 */
module Chains {
  import opened Utils
  import opened Lattices

  function ChainLeq(n: nat): seq<seq<bool>> {
    seq(n, a => seq(n, b => a <= b))
  }

  function ChainChildren(n: nat): seq<seq<nat>> {
    seq(n, b => if b == 0 then [] else [b - 1])
  }

  function ChainParents(n: nat): seq<seq<nat>> {
    seq(n, a => if a + 1 == n then [] else [a + 1])
  }

  function Reversed(n: nat): (r: seq<nat>)
    ensures |r| == n && forall i :: 0 <= i < n ==> r[i] == n - 1 - i
  {
    seq(n, i => n - 1 - i)
  }

  /** The chain with n elements. */
  function Chain(n: nat): Lattice
    requires n >= 1
  {
    Lattice(n, n - 1, n - 1, 0,
      ChainLeq(n),
      seq(n, a => seq(n, b => b <= a)),
      seq(n, a => seq(n, b => a < b)),
      seq(n, a => seq(n, b => b < a)),
      seq(n, a => seq(n, b => a + 1 == b)),
      seq(n, a => seq(n, b => if a <= b then b else a)),
      seq(n, a => seq(n, b => if a <= b then a else b)),
      ChainChildren(n),
      ChainParents(n),
      Range(n),
      Reversed(n),
      [])
  }

  lemma ChainTables(n: nat)
    requires n >= 1
    ensures Tables(Chain(n))
  {
    var L := Chain(n);
    forall a, b | 0 <= a < n && 0 <= b < n ensures Antisymmetric2(n, L.leq, a, b) {
    }
    forall a, b, c | 0 <= a < n && 0 <= b < n && 0 <= c < n ensures Transitive3(n, L.leq, a, b, c) {
    }
    forall a, b | 0 <= a < n && 0 <= b < n ensures StrictAt(L, a, b) {
    }
    forall a, b | 0 <= a < n && 0 <= b < n
      ensures IsLub(n, L.leq, a, b, L.lub[a][b]) && IsGlb(n, L.leq, a, b, L.glb[a][b])
    {
      forall x | 0 <= x < n ensures UpperBoundAbove(n, L.leq, a, b, L.lub[a][b], x) {
      }
      forall x | 0 <= x < n ensures LowerBoundBelow(n, L.leq, a, b, L.glb[a][b], x) {
      }
    }
  }

  lemma {:induction false} ChainEdgeCount(k: nat, n: nat)
    requires 1 <= k <= n
    ensures EdgeCount(ChainChildren(n)[..k]) == k - 1
  {
    var cs := ChainChildren(n)[..k];
    if k > 1 {
      assert cs[..k - 1] == ChainChildren(n)[..k - 1];
      ChainEdgeCount(k - 1, n);
    } else {
      assert cs[..0] == [];
    }
  }

  lemma ChainCover(n: nat)
    requires n >= 1
    ensures Tables(Chain(n)) && Cover(Chain(n))
  {
    ChainTables(n);
    var L := Chain(n);
    forall a, b | 0 <= a < n && 0 <= b < n ensures CoverAt(n, L.leq, L.children, a, b) {
      if a + 1 == b {
        forall x | 0 <= x < n ensures NotBetween(n, L.leq, a, b, x) {
        }
      } else if a < b {
        assert !NotBetween(n, L.leq, a, b, a + 1);
      }
    }
    forall a, b | 0 <= a < n && 0 <= b < n ensures InverseAt(L, a, b) {
    }
    ChainEdgeCount(n, n);
    assert ChainChildren(n)[..n] == ChainChildren(n);
  }

  /** Every chain is a valid lattice record. */
  lemma ChainValid(n: nat)
    requires n >= 1
    ensures Valid(Chain(n))
  {
    ChainCover(n);
    var L := Chain(n);
    forall i, j | 0 <= i < n && 0 <= j < n ensures Apart(L.topoDownUp, i, j) && Apart(L.topoUpDown, i, j) {
    }
    forall v | 0 <= v < n ensures Listed(L.topoDownUp, v) && Listed(L.topoUpDown, v) {
      assert L.topoDownUp[v] == v;
      assert L.topoUpDown[n - 1 - v] == v;
    }
    forall i, j | 0 <= i < j < n
      ensures NotBelowAt(n, L.leq, L.topoDownUp, i, j) && NotBelowAt(n, L.leq, L.topoUpDown, j, i)
    {
    }
    forall a: nat, b: nat ensures UncomparableAt(L, a, b) {
    }
  }
}
