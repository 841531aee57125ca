/**
 * GMeetEasy2 (lattices.js:1074-1098): a queue of elements, each popped element
 * x sending every triple (a, b, a v b) of triples[x] through a repair that lowers
 * h(a v b) to its meet with h(a) v h(b) and h(a), h(b) to their meets with the
 * old h(a v b), queueing what changes. As written, the triples leave out the
 * pairs with a v b in {a, b}, so the result need not even be monotone;
 * GMeetEasy2AllPairs runs the same loop over a table with every pair.
 */
module Easy2 {
  import opened Utils
  import opened Lattices
  import opened Endos
  import opened Solvers
  import opened Triples
  import opened Easy

  /**
   * The repair of lattices.js:1089-1095: both meets for a and b use the value
   * h(a v b) had before, and the writes are done in the order a v b, a, b.
   */
  ghost function Easy2Fixed(L: ValidLattice, h: seq<nat>, a: nat, b: nat): (r: seq<nat>)
    requires Endo(L, h) && a < L.n && b < L.n
    ensures Endo(L, r)
  {
    var ab := L.lub[a][b];
    h[ab := L.glb[h[ab]][L.lub[h[a]][h[b]]]][a := L.glb[h[a]][h[ab]]][b := L.glb[h[b]][h[ab]]]
  }

  /** The repair only lowers h. */
  lemma Easy2FixLowers(L: ValidLattice, h: seq<nat>, a: nat, b: nat)
    requires Endo(L, h) && a < L.n && b < L.n
    ensures Le(L, Easy2Fixed(L, h, a, b), h)
  {
    var ab := L.lub[a][b];
    var r := Easy2Fixed(L, h, a, b);
    LubFacts(L, h[ab], L.lub[h[a]][h[b]]);
    LubFacts(L, h[a], h[ab]);
    LubFacts(L, h[b], h[ab]);
    forall x | 0 <= x < L.n ensures L.leq[r[x]][h[x]] {
      if x != a && x != b && x != ab {
        assert r[x] == h[x];
      }
    }
  }

  /** A join-preserving g below h stays below the repaired h. */
  lemma Easy2FixKeepsBelow(L: ValidLattice, h: seq<nat>, g: seq<nat>, a: nat, b: nat)
    requires Endo(L, h) && Endo(L, g) && JoinPreserving(L, g) && Le(L, g, h) && a < L.n && b < L.n
    ensures Le(L, g, Easy2Fixed(L, h, a, b))
  {
    var ab := L.lub[a][b];
    var c := L.lub[h[a]][h[b]];
    var r := Easy2Fixed(L, h, a, b);
    LubFacts(L, a, b);
    assert Consistent(L, g, a, b);
    JoinPreservingIsMonotone(L, g);
    assert L.leq[g[a]][h[a]] && L.leq[g[b]][h[b]] && L.leq[g[ab]][h[ab]];
    assert L.leq[g[a]][g[ab]] && L.leq[g[b]][g[ab]];
    LubMono(L, g[a], g[b], h[a], h[b]);
    GlbGreatest(L, h[ab], c, g[ab]);
    Trans(L, g[a], g[ab], h[ab]);
    GlbGreatest(L, h[a], h[ab], g[a]);
    Trans(L, g[b], g[ab], h[ab]);
    GlbGreatest(L, h[b], h[ab], g[b]);
    forall x | 0 <= x < L.n ensures L.leq[g[x]][r[x]] {
      if x != a && x != b && x != ab {
        assert L.leq[g[x]][h[x]];
      }
    }
  }

  /** The repair only lowers h and keeps every join-preserving g <= f below it. */
  lemma Easy2FixDominates(L: ValidLattice, h: seq<nat>, f: seq<nat>, a: nat, b: nat)
    requires Endo(L, h) && Dominates(L, h, f) && a < L.n && b < L.n
    ensures Le(L, Easy2Fixed(L, h, a, b), h) && Dominates(L, Easy2Fixed(L, h, a, b), f)
  {
    Easy2FixLowers(L, h, a, b);
    forall g | JoinBelow(L, g, f) ensures Le(L, g, Easy2Fixed(L, h, a, b)) {
      Easy2FixKeepsBelow(L, h, g, a, b);
    }
  }

  /** On a pair whose join h preserves, the repair changes nothing. */
  lemma Easy2FixKeeps(L: ValidLattice, h: seq<nat>, a: nat, b: nat)
    requires Endo(L, h) && a < L.n && b < L.n && Consistent(L, h, a, b)
    ensures Easy2Fixed(L, h, a, b) == h
  {
    var ab := L.lub[a][b];
    var c := L.lub[h[a]][h[b]];
    var r := Easy2Fixed(L, h, a, b);
    LubFacts(L, h[a], h[b]);
    LubFacts(L, c, c);
    LubFacts(L, h[a], h[ab]);
    LubFacts(L, h[b], h[ab]);
    forall x | 0 <= x < L.n ensures r[x] == h[x] {
    }
  }

  /** When the repair changes nothing, h preserves the join of a and b. */
  lemma Easy2FixReveals(L: ValidLattice, h: seq<nat>, a: nat, b: nat)
    requires Endo(L, h) && a < L.n && b < L.n && Easy2Fixed(L, h, a, b) == h
    ensures Consistent(L, h, a, b)
  {
    var ab := L.lub[a][b];
    var c := L.lub[h[a]][h[b]];
    var r := Easy2Fixed(L, h, a, b);
    LubFacts(L, a, b);
    LubFacts(L, h[a], h[b]);
    if a == b {
      LubFacts(L, h[a], h[a]);
    } else {
      LubFacts(L, h[a], h[ab]);
      LubFacts(L, h[b], h[ab]);
      LubFacts(L, h[ab], c);
      assert r[a] == L.glb[h[a]][h[ab]] && r[b] == L.glb[h[b]][h[ab]];
      LubLeast(L, h[a], h[b], h[ab]);
      if ab != a && ab != b {
        assert r[ab] == L.glb[h[ab]][c];
      }
      Antisym(L, c, h[ab]);
    }
  }

  /** The repair leaves h as it is exactly when h preserves the join of a and b. */
  lemma Easy2FixChanges(L: ValidLattice, h: seq<nat>, a: nat, b: nat)
    requires Endo(L, h) && a < L.n && b < L.n
    ensures Easy2Fixed(L, h, a, b) == h <==> Consistent(L, h, a, b)
  {
    if Consistent(L, h, a, b) {
      Easy2FixKeeps(L, h, a, b);
    }
    if Easy2Fixed(L, h, a, b) == h {
      Easy2FixReveals(L, h, a, b);
    }
  }

  /** A repair step of the queue loop: below the start, still dominating, and strictly lower. */
  lemma Easy2FixStep(L: ValidLattice, hs: seq<nat>, h: seq<nat>, f: seq<nat>, a: nat, b: nat)
    requires Endo(L, hs) && Endo(L, h) && Le(L, h, hs) && Dominates(L, h, f)
    requires a < L.n && b < L.n && !Consistent(L, h, a, b)
    ensures Le(L, Easy2Fixed(L, h, a, b), hs) && Dominates(L, Easy2Fixed(L, h, a, b), f)
    ensures Measure(L, Easy2Fixed(L, h, a, b)) < Measure(L, h)
  {
    Easy2FixDominates(L, h, f, a, b);
    Easy2FixChanges(L, h, a, b);
    LeTrans(L, Easy2Fixed(L, h, a, b), h, hs);
    MeasureDecreases(L, Easy2Fixed(L, h, a, b), h);
  }

  /**
   * One triple (lattices.js:1085-1095): skip a consistent pair; otherwise queue
   * a v b, queue a and b when they will change, and write the repair.
   */
  method Easy2Step(L: ValidLattice, h: array<nat>, t: Triple, queue: seq<nat>, inQueue: seq<bool>)
    returns (queue': seq<nat>, inQueue': seq<bool>)
    requires h.Length == L.n && Endo(L, h[..]) && QueueOk(L, queue, inQueue)
    requires t.0 < L.n && t.1 < L.n && t.2 == L.lub[t.0][t.1]
    modifies h
    ensures h[..] == if Consistent(L, old(h[..]), t.0, t.1) then old(h[..]) else Easy2Fixed(L, old(h[..]), t.0, t.1)
    ensures QueueOk(L, queue', inQueue') && SupportedAt(L, h[..], inQueue', t.0, t.1)
    ensures forall x :: 0 <= x < L.n ==> (inQueue[x] ==> inQueue'[x]) && (h[x] != old(h[x]) ==> inQueue'[x])
    ensures Consistent(L, old(h[..]), t.0, t.1) ==> queue' == queue
  {
    var (a, b, ab) := t;
    var hab := L.lub[h[a]][h[b]];
    if h[ab] == hab {
      return queue, inQueue;
    }
    ghost var h0 := h[..];
    ghost var r := Easy2Fixed(L, h0, a, b);
    PushOk(L, queue, inQueue, ab);
    var p := Push(queue, inQueue, ab);
    queue', inQueue' := p.0, p.1;
    var ha := L.glb[h[a]][h[ab]];
    var hb := L.glb[h[b]][h[ab]];
    if h[a] != ha {
      PushOk(L, queue', inQueue', a);
      p := Push(queue', inQueue', a);
      queue', inQueue' := p.0, p.1;
    }
    if h[b] != hb {
      PushOk(L, queue', inQueue', b);
      p := Push(queue', inQueue', b);
      queue', inQueue' := p.0, p.1;
    }
    h[ab] := L.glb[h[ab]][hab];
    h[a] := ha;
    h[b] := hb;
    assert h[..] == r;
  }

  /**
   * The triples of one popped element (lattices.js:1083-1096), one after the
   * other; afterwards every listed pair is supported again.
   */
  method Easy2Triples(L: ValidLattice, h: array<nat>, ts: seq<Triple>, comparable: bool,
                      queue: seq<nat>, inQueue: seq<bool>, ghost f: seq<nat>)
    returns (queue': seq<nat>, inQueue': seq<bool>)
    requires h.Length == L.n && Endo(L, h[..]) && Dominates(L, h[..], f)
    requires QueueOk(L, queue, inQueue) && forall k :: 0 <= k < |ts| ==> IsTriple(L, ts[k], comparable)
    requires Supported(L, h[..], inQueue, comparable, ts)
    modifies h
    ensures Endo(L, h[..]) && Le(L, h[..], old(h[..])) && Dominates(L, h[..], f)
    ensures QueueOk(L, queue', inQueue') && Supported(L, h[..], inQueue', comparable, [])
    ensures h[..] == old(h[..]) ==> queue' == queue
    ensures h[..] != old(h[..]) ==> Measure(L, h[..]) < Measure(L, old(h[..]))
    ensures ListedConsistent(L, old(h[..]), comparable) ==> h[..] == old(h[..])
  {
    ghost var hs := h[..];
    DominatesSelf(L, hs);
    queue', inQueue' := queue, inQueue;
    var i := 0;
    while i < |ts|
      invariant 0 <= i <= |ts|
      invariant Endo(L, h[..]) && Le(L, h[..], hs) && Dominates(L, h[..], f)
      invariant QueueOk(L, queue', inQueue') && Supported(L, h[..], inQueue', comparable, ts[i..])
      invariant h[..] == hs ==> queue' == queue
      invariant h[..] != hs ==> Measure(L, h[..]) < Measure(L, hs)
      invariant ListedConsistent(L, hs, comparable) ==> h[..] == hs
    {
      ghost var hb := h[..];
      ghost var qb := inQueue';
      var t := ts[i];
      if !Consistent(L, hb, t.0, t.1) {
        Easy2FixStep(L, hs, hb, f, t.0, t.1);
      }
      queue', inQueue' := Easy2Step(L, h, t, queue', inQueue');
      assert ts[i..][0] == ts[i] && ts[i..][1..] == ts[i + 1..];
      CarrySupport(L, hb, h[..], qb, inQueue', comparable, ts[i..]);
      i := i + 1;
    }
  }

  /**
   * The queue loop (lattices.js:1079-1097) over the triple table ts: the result
   * is below h, keeps every join-preserving map below f under it, and is
   * consistent on every pair the table lists; when h already is, nothing changes.
   */
  method Easy2Queue(L: ValidLattice, h: array<nat>, ts: seq<seq<Triple>>, comparable: bool, ghost f: seq<nat>)
    requires h.Length == L.n && Endo(L, h[..]) && Dominates(L, h[..], f)
    requires TripleIndex(L, ts, comparable)
    modifies h
    ensures Le(L, h[..], old(h[..])) && Dominates(L, h[..], f)
    ensures ListedConsistent(L, h[..], comparable)
    ensures ListedConsistent(L, old(h[..]), comparable) ==> h[..] == old(h[..])
  {
    ghost var h0 := h[..];
    DominatesSelf(L, h0);
    var queue := Range(L.n);
    var inQueue := seq(L.n, _ => true);
    FullQueue(L);
    while |queue| > 0
      invariant Endo(L, h[..]) && Le(L, h[..], h0) && Dominates(L, h[..], f)
      invariant QueueOk(L, queue, inQueue) && Supported(L, h[..], inQueue, comparable, [])
      invariant ListedConsistent(L, h0, comparable) ==> h[..] == h0
      decreases Measure(L, h[..]), |queue|
    {
      PopOk(L, queue, inQueue);
      var x := queue[|queue| - 1];
      queue := queue[..|queue| - 1];
      PopSupported(L, h[..], inQueue, comparable, ts, x);
      inQueue := inQueue[x := false];
      ghost var hs := h[..];
      queue, inQueue := Easy2Triples(L, h, ts[x], comparable, queue, inQueue, f);
      LeTrans(L, h[..], hs, h0);
    }
    DoneConsistent(L, h[..], inQueue, comparable);
  }

  /**
   * lattices.js:1074-1098. The result is below the start, keeps every join-preserving
   * map below the start under it, and is consistent on every pair a < b with a v b
   * neither a nor b; when the start already is, it is returned unchanged.
   */
  method GMeetEasy2(L: ValidLattice, f: seq<nat>, g: Option<seq<nat>>) returns (r: seq<nat>)
    requires Endo(L, f) && (g.Some? ==> Endo(L, g.value))
    ensures Le(L, r, Start(L, f, g)) && Dominates(L, r, Start(L, f, g))
    ensures ListedConsistent(L, r, false)
    ensures ListedConsistent(L, Start(L, f, g), false) ==> r == Start(L, f, g)
  {
    var h := StartWithTop(L, f, g);
    ghost var h0 := h[..];
    StartIsMeet(L, f, g, f);
    DominatesSelf(L, h0);
    var ts := BuildTriples(L, false);
    Easy2Queue(L, h, ts, false, h0);
    r := h[..];
  }

  /**
   * On the chain 0 < 1 every pair has its join among itself, so no triple is
   * listed and GMeetEasy2 returns the start [1, 0] unchanged; it is not monotone.
   */
  lemma Easy2MissesComparable()
    ensures ListedConsistent(Chain2(), [1, 0], false)
    ensures !Consistent(Chain2(), [1, 0], 0, 1)
  {
    var L := Chain2();
    assert L.lub[0][1] == 1;
  }

  /** The same loop over a table of every pair a < b: the greatest join-preserving map below the start. */
  method GMeetEasy2AllPairs(L: ValidLattice, f: seq<nat>, g: Option<seq<nat>>) returns (r: seq<nat>)
    requires Endo(L, f) && (g.Some? ==> Endo(L, g.value))
    ensures IsGreatestJoinBelow(L, r, Start(L, f, g))
  {
    var h := StartWithTop(L, f, g);
    ghost var h0 := h[..];
    StartIsMeet(L, f, g, f);
    DominatesSelf(L, h0);
    var ts := BuildTriples(L, true);
    Easy2Queue(L, h, ts, true, h0);
    PairsSuffice(L, h[..]);
    r := h[..];
  }
}
