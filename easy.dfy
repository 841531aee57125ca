/**
 * GMeetEasy and GMeetEasy3 (lattices.js:1038-1071, 1101-1117). Both repair a
 * conflicting pair (a, b) the same way: lower h(a v b) to its meet with
 * h(a) v h(b), then lower h(a) and h(b) to their meets with the new h(a v b).
 * As written, neither visits every pair, and the model shows what they return;
 * GMeetEasyAllPairs is the version that visits all of them.
 */
module Easy {
  import opened Utils
  import opened Lattices
  import opened Endos
  import opened Solvers
  import opened Chains

  /** The three-step repair of the pair (a, b) (lattices.js:1065-1067, 1110-1112). */
  ghost function EasyFixed(L: ValidLattice, h: seq<nat>, a: nat, b: nat): (r: seq<nat>)
    requires Endo(L, h) && a < L.n && b < L.n
    ensures Endo(L, r)
  {
    var ab := L.lub[a][b];
    var h1 := h[ab := L.glb[h[ab]][L.lub[h[a]][h[b]]]];
    var h2 := h1[a := L.glb[h1[a]][h1[ab]]];
    h2[b := L.glb[h2[b]][h2[ab]]]
  }

  /** The repair only lowers h and keeps every join-preserving g <= f below it. */
  lemma EasyFixDominates(L: ValidLattice, h: seq<nat>, f: seq<nat>, a: nat, b: nat)
    requires Endo(L, h) && Dominates(L, h, f) && a < L.n && b < L.n
    ensures Le(L, EasyFixed(L, h, a, b), h) && Dominates(L, EasyFixed(L, h, a, b), f)
  {
    var ab := L.lub[a][b];
    LubFacts(L, a, b);
    var c := L.lub[h[a]][h[b]];
    var h1 := h[ab := L.glb[h[ab]][c]];
    DominatesJoinStep(L, h, f, a, b, h1[ab]);
    LubFacts(L, h[ab], c);
    LowerOne(L, h, ab, h1[ab]);
    var h2 := h1[a := L.glb[h1[a]][h1[ab]]];
    DominatesMeetStep(L, h1, f, a, ab);
    LubFacts(L, h1[a], h1[ab]);
    LowerOne(L, h1, a, h2[a]);
    var r := h2[b := L.glb[h2[b]][h2[ab]]];
    DominatesMeetStep(L, h2, f, b, ab);
    LubFacts(L, h2[b], h2[ab]);
    LowerOne(L, h2, b, r[b]);
    LeTrans(L, h2, h1, h);
    LeTrans(L, r, h2, h);
  }

  /** On a consistent pair the repair changes nothing. */
  lemma EasyFixKeeps(L: ValidLattice, h: seq<nat>, a: nat, b: nat)
    requires Endo(L, h) && a < L.n && b < L.n && Consistent(L, h, a, b)
    ensures EasyFixed(L, h, a, b) == h
  {
    var ab := L.lub[a][b];
    LubFacts(L, a, b);
    var c := L.lub[h[a]][h[b]];
    LubFacts(L, h[a], h[b]);
    LubFacts(L, c, c);
    var h1 := h[ab := L.glb[h[ab]][c]];
    assert h1 == h;
    LubFacts(L, h[a], c);
    Trans(L, h[a], c, h[ab]);
    var h2 := h1[a := L.glb[h1[a]][h1[ab]]];
    assert h2 == h;
    LubFacts(L, h[b], c);
  }

  /** On a conflicting pair the repair changes h. */
  lemma EasyFixMoves(L: ValidLattice, h: seq<nat>, a: nat, b: nat)
    requires Endo(L, h) && a < L.n && b < L.n && !Consistent(L, h, a, b)
    ensures EasyFixed(L, h, a, b) != h
  {
    var ab := L.lub[a][b];
    LubFacts(L, a, b);
    var c := L.lub[h[a]][h[b]];
    LubFacts(L, h[a], h[b]);
    var v := L.glb[h[ab]][c];
    LubFacts(L, h[ab], c);
    LubFacts(L, v, v);
    var r := EasyFixed(L, h, a, b);
    if a == b {
      assert false;
    } else if v != h[ab] {
      assert r[ab] == v;
    } else {
      var wa := L.glb[h[a]][h[ab]];
      LubFacts(L, h[a], h[ab]);
      if wa != h[a] {
        assert r[a] == wa;
      } else {
        var wb := L.glb[h[b]][h[ab]];
        LubFacts(L, h[b], h[ab]);
        if wb == h[b] {
          LubLeast(L, h[a], h[b], h[ab]);
          assert false;
        }
        assert r[b] == wb;
      }
    }
  }

  /** The repair changes h exactly when the pair conflicts. */
  lemma EasyFixChanges(L: ValidLattice, h: seq<nat>, a: nat, b: nat)
    requires Endo(L, h) && a < L.n && b < L.n
    ensures EasyFixed(L, h, a, b) == h <==> Consistent(L, h, a, b)
  {
    if Consistent(L, h, a, b) {
      EasyFixKeeps(L, h, a, b);
    } else {
      EasyFixMoves(L, h, a, b);
    }
  }

  /** A repair step of a solver loop: below the start, still dominating, and strictly lower. */
  lemma EasyFixStep(L: ValidLattice, hs: seq<nat>, h: seq<nat>, f: seq<nat>, a: nat, b: nat)
    requires Endo(L, hs) && Endo(L, h) && Le(L, h, hs) && Dominates(L, h, f)
    requires a < L.n && b < L.n && !Consistent(L, h, a, b)
    ensures Le(L, EasyFixed(L, h, a, b), hs) && Dominates(L, EasyFixed(L, h, a, b), f)
    ensures Measure(L, EasyFixed(L, h, a, b)) < Measure(L, h)
  {
    EasyFixDominates(L, h, f, a, b);
    EasyFixMoves(L, h, a, b);
    LeTrans(L, EasyFixed(L, h, a, b), h, hs);
    MeasureDecreases(L, EasyFixed(L, h, a, b), h);
  }

  /** The repair, in place. */
  method EasyFix(L: ValidLattice, h: array<nat>, a: nat, b: nat)
    requires h.Length == L.n && Endo(L, h[..]) && a < L.n && b < L.n
    modifies h
    ensures h[..] == EasyFixed(L, old(h[..]), a, b)
  {
    var ab := L.lub[a][b];
    h[ab] := L.glb[h[ab]][L.lub[h[a]][h[b]]];
    h[a] := L.glb[h[a]][h[ab]];
    h[b] := L.glb[h[b]][h[ab]];
  }

  // ---------------------------------------------------------------------
  // GMeetEasy as written: the inner loop only stops once pending is 0, and then so
  // does the outer one, so a never leaves 0 and only the pairs (0, b) are checked.

  /** Every pair (a, b) with this a is consistent. */
  ghost predicate RowConsistent(L: ValidLattice, h: seq<nat>, a: nat)
    requires Endo(L, h) && a < L.n
  {
    forall b :: 0 <= b < L.n ==> Consistent(L, h, a, b)
  }

  /** The next b of the inner loop, b = (b+1)%n. */
  function Next(b: nat, n: nat): (r: nat)
    requires b < n
    ensures r < n && r == if b + 1 == n then 0 else b + 1
  {
    (b + 1) % n
  }

  /** How many steps of Next lead from j to b, between 1 and n. */
  function StepsBack(b: nat, j: nat, n: nat): (r: nat)
    requires b < n && j < n
    ensures 1 <= r <= n
    ensures b == Next(j, n) ==> r == 1
  {
    if j < b then b - j else b + n - j
  }

  lemma TriangleAtLeast(n: nat)
    requires n >= 1
    ensures (n * (n + 1)) / 2 >= n
  {
    assert n * (n + 1) == n * n + n;
    assert n * n >= n;
  }

  /** After a consistent check at b, the window of consistent pairs behind Next(b) grows by one. */
  lemma WindowStep(L: ValidLattice, h: seq<nat>, a: nat, b: nat, k: nat)
    requires Endo(L, h) && a < L.n && b < L.n && Consistent(L, h, a, b)
    requires forall j :: 0 <= j < L.n && StepsBack(b, j, L.n) <= k ==> Consistent(L, h, a, j)
    ensures forall j :: 0 <= j < L.n && StepsBack(Next(b, L.n), j, L.n) <= k + 1 ==> Consistent(L, h, a, j)
  {
    var b' := Next(b, L.n);
    forall j | 0 <= j < L.n && StepsBack(b', j, L.n) <= k + 1 ensures Consistent(L, h, a, j) {
      if j != b {
        assert StepsBack(b', j, L.n) == StepsBack(b, j, L.n) + 1;
      }
    }
  }

  /**
   * The inner loop of GMeetEasy (lattices.js:1058-1069): with a fixed, step b
   * cyclically, repairing conflicts, until total checks in a row found none.
   */
  method EasySpin(L: ValidLattice, h: array<nat>, a: nat, total: nat, ghost f: seq<nat>)
    requires h.Length == L.n && Endo(L, h[..]) && Dominates(L, h[..], f)
    requires a < L.n && total >= L.n
    modifies h
    ensures Le(L, h[..], old(h[..])) && Dominates(L, h[..], f)
    ensures RowConsistent(L, h[..], a)
    ensures RowConsistent(L, old(h[..]), a) ==> h[..] == old(h[..])
  {
    ghost var hs := h[..];
    DominatesSelf(L, hs);
    var pending := total;
    var b: nat := Next(a, L.n);
    while pending > 0
      invariant 0 <= pending <= total && b < L.n
      invariant Endo(L, h[..]) && Le(L, h[..], hs) && Dominates(L, h[..], f)
      invariant forall j :: 0 <= j < L.n && StepsBack(b, j, L.n) <= total - pending ==>
        Consistent(L, h[..], a, j)
      invariant RowConsistent(L, hs, a) ==> h[..] == hs
      decreases Measure(L, h[..]), pending
    {
      pending := pending - 1;
      var ab := L.lub[a][b];
      var hab := L.lub[h[a]][h[b]];
      if h[ab] == hab {
        WindowStep(L, h[..], a, b, total - pending - 1);
        b := Next(b, L.n);
        continue;
      }
      EasyFixStep(L, hs, h[..], f, a, b);
      EasyFix(L, h, a, b);
      pending := total;
      b := Next(b, L.n);
    }
  }

  /**
   * lattices.js:1038-1071. The result is below the start, keeps every join-preserving
   * map below the start under it, and is consistent on every pair (0, b); when the
   * start already is, it is returned unchanged.
   */
  method GMeetEasy(L: ValidLattice, f: seq<nat>, g: Option<seq<nat>>) returns (r: seq<nat>)
    requires Endo(L, f) && (g.Some? ==> Endo(L, g.value))
    ensures Le(L, r, Start(L, f, g)) && Dominates(L, r, Start(L, f, g))
    ensures RowConsistent(L, r, 0)
    ensures RowConsistent(L, Start(L, f, g), 0) ==> r == Start(L, f, g)
  {
    var h := StartWithTop(L, f, g);
    ghost var h0 := h[..];
    StartIsMeet(L, f, g, f);
    DominatesSelf(L, h0);
    var total := (L.n * (L.n + 1)) / 2;
    TriangleAtLeast(L.n);
    var pending := total;
    var a := 0;
    while pending > 0
      invariant a < L.n && (pending == 0 || (pending == total && a == 0 && h[..] == h0))
      invariant Le(L, h[..], h0) && Dominates(L, h[..], h0)
      invariant pending == 0 ==> RowConsistent(L, h[..], 0)
      invariant RowConsistent(L, h0, 0) ==> h[..] == h0
      decreases pending
    {
      EasySpin(L, h, a, total, h0);
      pending := 0;
      a := Next(a, L.n);
    }
    r := h[..];
  }

  /** The three-element chain. */
  ghost function Chain3(): (L: ValidLattice)
    ensures L == Chain(3)
  {
    ChainValid(3);
    Chain(3)
  }

  /**
   * On the chain 0 < 1 < 2, the map [0, 2, 1] is consistent on every pair (0, b),
   * so GMeetEasy returns it unchanged, yet it does not preserve the join of 1 and 2.
   */
  lemma EasyMissesPairs()
    ensures RowConsistent(Chain3(), [0, 2, 1], 0)
    ensures !Consistent(Chain3(), [0, 2, 1], 1, 2)
  {
    var L := Chain3();
    assert L.lub[1][2] == 2;
    assert forall x :: 0 <= x < 3 ==> L.lub[0][x] == x;
  }

  // ---------------------------------------------------------------------
  // GMeetEasy3 applies the repair to every listed pair, unconditionally, until a
  // round changes nothing. As written, it visits only the incomparable pairs.

  /** Every listed pair is a pair of elements on which h is consistent. */
  ghost predicate ListConsistent(L: ValidLattice, h: seq<nat>, ps: seq<(nat, nat)>)
    requires Endo(L, h)
  {
    forall k :: 0 <= k < |ps| ==> ps[k].0 < L.n && ps[k].1 < L.n && Consistent(L, h, ps[k].0, ps[k].1)
  }

  /** One step of a round: the bookkeeping of EasyRound's loop carries over pair i. */
  lemma RoundStep(L: ValidLattice, hs: seq<nat>, h: seq<nat>, f: seq<nat>, ps: seq<(nat, nat)>, i: nat)
    requires Endo(L, hs) && Endo(L, h) && Le(L, h, hs) && Dominates(L, h, f)
    requires i < |ps| && ps[i].0 < L.n && ps[i].1 < L.n
    requires h != hs ==> Measure(L, h) < Measure(L, hs) && !ListConsistent(L, hs, ps)
    requires h == hs ==> ListConsistent(L, hs, ps[..i])
    ensures var r := EasyFixed(L, h, ps[i].0, ps[i].1);
      Le(L, r, hs) && Dominates(L, r, f) &&
      (r != hs ==> Measure(L, r) < Measure(L, hs) && !ListConsistent(L, hs, ps)) &&
      (r == hs ==> ListConsistent(L, hs, ps[..i + 1]))
  {
    var (a, b) := ps[i];
    var r := EasyFixed(L, h, a, b);
    EasyFixChanges(L, h, a, b);
    if Consistent(L, h, a, b) {
      DominatesSelf(L, h);
      if h == hs {
        assert ps[..i + 1] == ps[..i] + [ps[i]];
      }
    } else {
      EasyFixStep(L, hs, h, f, a, b);
      if h == hs {
        assert !ListConsistent(L, hs, ps) by {
          assert ps[i] == (a, b);
        }
      }
    }
  }

  /** One round of repairs over the pairs ps, in place (lattices.js:1107-1113). */
  method EasyRound(L: ValidLattice, h: array<nat>, ps: seq<(nat, nat)>, ghost f: seq<nat>)
    requires h.Length == L.n && Endo(L, h[..]) && Dominates(L, h[..], f)
    requires forall k :: 0 <= k < |ps| ==> ps[k].0 < L.n && ps[k].1 < L.n
    modifies h
    ensures Le(L, h[..], old(h[..])) && Dominates(L, h[..], f)
    ensures h[..] != old(h[..]) ==> Measure(L, h[..]) < Measure(L, old(h[..]))
    ensures h[..] == old(h[..]) <==> ListConsistent(L, old(h[..]), ps)
  {
    ghost var hs := h[..];
    DominatesSelf(L, hs);
    var i := 0;
    while i < |ps|
      invariant 0 <= i <= |ps|
      invariant Le(L, h[..], hs) && Dominates(L, h[..], f)
      invariant h[..] != hs ==> Measure(L, h[..]) < Measure(L, hs) && !ListConsistent(L, hs, ps)
      invariant h[..] == hs ==> ListConsistent(L, hs, ps[..i])
    {
      var (a, b) := ps[i];
      RoundStep(L, hs, h[..], f, ps, i);
      EasyFix(L, h, a, b);
      i := i + 1;
    }
    assert ps[..|ps|] == ps;
  }

  /** Repeat rounds over ps until one changes nothing (lattices.js:1105-1115). */
  method EasyRounds(L: ValidLattice, h: array<nat>, ps: seq<(nat, nat)>, ghost f: seq<nat>)
    requires h.Length == L.n && Endo(L, h[..]) && Dominates(L, h[..], f)
    requires forall k :: 0 <= k < |ps| ==> ps[k].0 < L.n && ps[k].1 < L.n
    modifies h
    ensures Le(L, h[..], old(h[..])) && Dominates(L, h[..], f)
    ensures ListConsistent(L, h[..], ps)
    ensures ListConsistent(L, old(h[..]), ps) ==> h[..] == old(h[..])
  {
    ghost var hs := h[..];
    DominatesSelf(L, hs);
    while true
      invariant Le(L, h[..], hs) && Dominates(L, h[..], f)
      invariant ListConsistent(L, hs, ps) ==> h[..] == hs
      decreases Measure(L, h[..])
    {
      ghost var hp := h[..];
      var copy := h[..];
      EasyRound(L, h, ps, f);
      LeTrans(L, h[..], hp, hs);
      if h[..] == copy {
        break;
      }
    }
  }

  /**
   * lattices.js:1101-1117. The result is below the start, keeps every join-preserving
   * map below the start under it, and is consistent on every incomparable pair; when
   * the start already is, it is returned unchanged.
   */
  method GMeetEasy3(L: ValidLattice, f: seq<nat>, g: Option<seq<nat>>) returns (r: seq<nat>)
    requires Endo(L, f) && (g.Some? ==> Endo(L, g.value))
    ensures Le(L, r, Start(L, f, g)) && Dominates(L, r, Start(L, f, g))
    ensures ListConsistent(L, r, L.uncomparables)
    ensures ListConsistent(L, Start(L, f, g), L.uncomparables) ==> r == Start(L, f, g)
  {
    var h := StartWithTop(L, f, g);
    ghost var h0 := h[..];
    StartIsMeet(L, f, g, f);
    DominatesSelf(L, h0);
    forall k | 0 <= k < |L.uncomparables| ensures L.uncomparables[k].0 < L.n && L.uncomparables[k].1 < L.n {
      Uncomparable(L, L.uncomparables[k].0, L.uncomparables[k].1);
    }
    EasyRounds(L, h, L.uncomparables, h0);
    r := h[..];
  }

  /** The two-element chain. */
  ghost function Chain2(): (L: ValidLattice)
    ensures L == Chain(2)
  {
    ChainValid(2);
    Chain(2)
  }

  /**
   * On the chain 0 < 1 there is no incomparable pair, so GMeetEasy3 returns the
   * start [1, 0] unchanged, which is not even monotone; the answer is [0, 0].
   */
  lemma Easy3MissesComparable()
    ensures ListConsistent(Chain2(), [1, 0], Chain2().uncomparables)
    ensures !Consistent(Chain2(), [1, 0], 0, 1)
  {
    var L := Chain2();
    assert L.lub[0][1] == 1 && L.uncomparables == [];
  }

  // ---------------------------------------------------------------------
  // The corrected solver: the same rounds over every pair a < b, as in the loop
  // left commented out inside GMeetEasy (lattices.js:1041-1056).

  /** All pairs (a, b) with a < b < n, grouped by b. */
  function AllPairs(n: nat): (ps: seq<(nat, nat)>)
    ensures forall k :: 0 <= k < |ps| ==> ps[k].0 < ps[k].1 < n
    ensures forall a, b :: 0 <= a < b < n ==> (a, b) in ps
  {
    if n == 0 then []
    else
      var tail := seq(n - 1, a requires 0 <= a < n - 1 => (a, n - 1));
      var ps := AllPairs(n - 1);
      assert forall a :: 0 <= a < n - 1 ==> tail[a] == (a, n - 1);
      assert forall a, b :: 0 <= a < b < n ==> (a, b) in ps + tail by {
        forall a, b | 0 <= a < b < n ensures (a, b) in ps + tail {
          if b < n - 1 {
            var k :| 0 <= k < |ps| && ps[k] == (a, b);
            assert (ps + tail)[k] == (a, b);
          } else {
            assert (ps + tail)[|ps| + a] == (a, b);
          }
        }
      }
      ps + tail
  }

  /** The greatest join-preserving map below the meet of f and g. */
  method GMeetEasyAllPairs(L: ValidLattice, f: seq<nat>, g: Option<seq<nat>>) returns (r: seq<nat>)
    requires Endo(L, f) && (g.Some? ==> Endo(L, g.value))
    ensures IsGreatestJoinBelow(L, r, Start(L, f, g))
  {
    var h := StartWithTop(L, f, g);
    ghost var h0 := h[..];
    StartIsMeet(L, f, g, f);
    DominatesSelf(L, h0);
    var ps := AllPairs(L.n);
    EasyRounds(L, h, ps, h0);
    forall a, b | 0 <= a < b < L.n ensures Consistent(L, h[..], a, b) {
      var k :| 0 <= k < |ps| && ps[k] == (a, b);
    }
    PairsSuffice(L, h[..]);
    r := h[..];

  }
}
