/**
 * GMeetMonoDfs (lattices.js:1002-1034): the monotone closure of the start, then
 * a queue of elements whose triples are checked again. A conflicting triple
 * (a, b, a v b) lowers the whole down-set of a v b to h(a) v h(b), by a
 * depth-first walk over children that stops wherever nothing changes, and
 * every element it changes goes back into the queue.
 */
module MonoDfs {
  import opened Utils
  import opened Lattices
  import opened Endos
  import opened Closures
  import opened Solvers
  import opened Triples

  // ---------------------------------------------------------------------
  // The walk. h0 is the map when the walk starts, t = LoweredBelow(h0, y, c)
  // the map it ends with, and seen the elements visited so far.

  /** d is visited or needs no change. */
  ghost predicate Settled(L: ValidLattice, h0: seq<nat>, t: seq<nat>, seen: set<nat>, d: nat)
    requires |h0| == L.n && |t| == L.n && d < L.n
  {
    d in seen || t[d] == h0[d]
  }

  /** Every d <= s is settled. */
  ghost predicate Done(L: ValidLattice, h0: seq<nat>, t: seq<nat>, seen: set<nat>, s: nat)
    requires |h0| == L.n && |t| == L.n && s < L.n
  {
    forall d {:trigger Settled(L, h0, t, seen, d)} :: 0 <= d < L.n && L.leq[d][s] ==> Settled(L, h0, t, seen, d)
  }

  /** Only elements below y are visited; h is t on them and h0 elsewhere. */
  ghost predicate Walked(L: ValidLattice, h: seq<nat>, h0: seq<nat>, t: seq<nat>, seen: set<nat>, y: nat)
    requires y < L.n
  {
    && |h| == L.n && |h0| == L.n && |t| == L.n
    && (forall s :: s in seen ==> s < L.n && L.leq[s][y])
    && forall x {:trigger h[x]} :: 0 <= x < L.n ==> h[x] == if x in seen then t[x] else h0[x]
  }

  /** Every visited element that the walk changes is in the queue. */
  ghost predicate Flagged(L: ValidLattice, h0: seq<nat>, t: seq<nat>, seen: set<nat>, inQueue: seq<bool>)
    requires |h0| == L.n && |t| == L.n && |inQueue| == L.n
  {
    forall x {:trigger inQueue[x]} :: 0 <= x < L.n && x in seen && t[x] != h0[x] ==> inQueue[x]
  }

  /** If h0(b) is already below c, nothing below b moves: h0 is monotone. */
  lemma AtRest(L: ValidLattice, h0: seq<nat>, y: nat, c: nat, b: nat, seen: set<nat>)
    requires Endo(L, h0) && Monotone(L, h0) && y < L.n && c < L.n && b < L.n && L.leq[b][y]
    requires h0[b] == L.glb[h0[b]][c]
    ensures Done(L, h0, LoweredBelow(L, h0, y, c), seen, b)
  {
    var t := LoweredBelow(L, h0, y, c);
    LubFacts(L, h0[b], c);
    forall d | 0 <= d < L.n && L.leq[d][b] ensures Settled(L, h0, t, seen, d) {
      Trans(L, d, b, y);
      Trans(L, h0[d], h0[b], c);
      LubFacts(L, h0[d], c);
    }
  }

  /** Once every child of b is visited and done, b is done. */
  lemma DoneAfterChildren(L: ValidLattice, h0: seq<nat>, t: seq<nat>, seen: set<nat>, b: nat)
    requires |h0| == L.n && |t| == L.n && b < L.n && b in seen
    requires forall k :: 0 <= k < |L.children[b]| ==> L.children[b][k] in seen
    requires forall s :: s in seen && s < L.n ==> Done(L, h0, t, seen, s) || s == b || L.leq[b][s]
    ensures Done(L, h0, t, seen, b)
  {
    forall d | 0 <= d < L.n && L.leq[d][b] ensures Settled(L, h0, t, seen, d) {
      if d != b {
        var k := BelowSomeChild(L, d, b);
        ChildIsCovered(L, k, b);
        var i :| 0 <= i < |L.children[b]| && L.children[b][i] == k;
        if L.leq[b][k] {
          Antisym(L, k, b);
        }
        assert Done(L, h0, t, seen, k);
      }
    }
  }

  /** Done only gets easier as more is visited. */
  lemma DoneGrows(L: ValidLattice, h0: seq<nat>, t: seq<nat>, seen: set<nat>, seen': set<nat>, s: nat)
    requires |h0| == L.n && |t| == L.n && s < L.n && seen <= seen'
    requires Done(L, h0, t, seen, s)
    ensures Done(L, h0, t, seen', s)
  {
    forall d | 0 <= d < L.n && L.leq[d][s] ensures Settled(L, h0, t, seen', d) {
      assert Settled(L, h0, t, seen, d);
    }
  }

  /** Before visiting a child a of b, every visited element is done or above a. */
  lemma BeforeChild(L: ValidLattice, h0: seq<nat>, t: seq<nat>, seen0: set<nat>, seen: set<nat>, a: nat, b: nat)
    requires |h0| == L.n && |t| == L.n && a < L.n && b < L.n && L.leq[a][b]
    requires forall s :: s in seen ==> s < L.n
    requires forall s :: s in seen ==> Done(L, h0, t, seen, s) || s == b || (s in seen0 && L.leq[b][s])
    ensures forall s :: s in seen ==> Done(L, h0, t, seen, s) || L.leq[a][s]
  {
    forall s | s in seen ensures Done(L, h0, t, seen, s) || L.leq[a][s] {
      if !Done(L, h0, t, seen, s) && s != b {
        Trans(L, a, b, s);
      }
    }
  }

  /** After visiting a child, what was done stays done and all newly visited is done. */
  lemma AfterChild(L: ValidLattice, h0: seq<nat>, t: seq<nat>, seen0: set<nat>, before: set<nat>, seen: set<nat>, b: nat)
    requires |h0| == L.n && |t| == L.n && b < L.n && before <= seen
    requires forall s :: s in seen ==> s < L.n
    requires forall s :: s in before ==> Done(L, h0, t, before, s) || s == b || (s in seen0 && L.leq[b][s])
    requires forall s :: s in seen && s !in before ==> Done(L, h0, t, seen, s)
    ensures forall s :: s in seen ==> Done(L, h0, t, seen, s) || s == b || (s in seen0 && L.leq[b][s])
  {
    forall s | s in seen ensures Done(L, h0, t, seen, s) || s == b || (s in seen0 && L.leq[b][s]) {
      if s in before && Done(L, h0, t, before, s) {
        DoneGrows(L, h0, t, before, seen, s);
      }
    }
  }

  /**
   * dfs (lattices.js:1010-1019) on a walk lowering the down-set of y to c: visit b,
   * lower it, queue it if it changes, and visit its unseen children; when b needs
   * no change, stop there.
   */
  method Dfs(L: ValidLattice, h: array<nat>, b: nat, c: nat, seen: set<nat>, queue: seq<nat>, inQueue: seq<bool>,
             ghost h0: seq<nat>, ghost y: nat, ghost t: seq<nat>)
    returns (seen': set<nat>, queue': seq<nat>, inQueue': seq<bool>)
    requires Endo(L, h0) && Monotone(L, h0) && y < L.n && c < L.n && t == LoweredBelow(L, h0, y, c)
    requires h.Length == L.n && b < L.n && L.leq[b][y] && b !in seen
    requires Walked(L, h[..], h0, t, seen, y)
    requires forall s :: s in seen ==> Done(L, h0, t, seen, s) || L.leq[b][s]
    requires QueueOk(L, queue, inQueue) && Flagged(L, h0, t, seen, inQueue)
    modifies h
    ensures seen <= seen' && b in seen'
    ensures Walked(L, h[..], h0, t, seen', y)
    ensures forall s :: s in seen' && s !in seen ==> Done(L, h0, t, seen', s)
    ensures QueueOk(L, queue', inQueue') && Flagged(L, h0, t, seen', inQueue')
    ensures forall x :: 0 <= x < L.n && inQueue[x] ==> inQueue'[x]
    decreases (set x | x in Range(L.n)) - seen, 2
  {
    seen' := seen + {b};
    queue', inQueue' := queue, inQueue;
    var hb := L.glb[h[b]][c];
    if h[b] == hb {
      AtRest(L, h0, y, c, b, seen');
      return;
    }
    PushOk(L, queue', inQueue', b);
    queue', inQueue' := Push(queue', inQueue', b).0, Push(queue', inQueue', b).1;
    h[b] := hb;
    forall s | s in seen' ensures Done(L, h0, t, seen', s) || s == b || (s in seen && L.leq[b][s]) {
      if s in seen && Done(L, h0, t, seen, s) {
        DoneGrows(L, h0, t, seen, seen', s);
      }
    }
    seen', queue', inQueue' := VisitChildren(L, h, b, c, seen', queue', inQueue', h0, y, t, seen);
  }

  /** for(let a of children[b]) if(!seen.has(a)) dfs(a, bound), then b is done. */
  method VisitChildren(L: ValidLattice, h: array<nat>, b: nat, c: nat, seen: set<nat>, queue: seq<nat>, inQueue: seq<bool>,
                       ghost h0: seq<nat>, ghost y: nat, ghost t: seq<nat>, ghost outer: set<nat>)
    returns (seen': set<nat>, queue': seq<nat>, inQueue': seq<bool>)
    requires Endo(L, h0) && Monotone(L, h0) && y < L.n && c < L.n && t == LoweredBelow(L, h0, y, c)
    requires h.Length == L.n && b < L.n && L.leq[b][y] && b !in outer && outer + {b} <= seen
    requires Walked(L, h[..], h0, t, seen, y)
    requires forall s :: s in seen ==> Done(L, h0, t, seen, s) || s == b || (s in outer && L.leq[b][s])
    requires QueueOk(L, queue, inQueue) && Flagged(L, h0, t, seen, inQueue)
    modifies h
    ensures seen <= seen'
    ensures Walked(L, h[..], h0, t, seen', y)
    ensures forall s :: s in seen' && s !in outer ==> Done(L, h0, t, seen', s)
    ensures QueueOk(L, queue', inQueue') && Flagged(L, h0, t, seen', inQueue')
    ensures forall x :: 0 <= x < L.n && inQueue[x] ==> inQueue'[x]
    decreases (set x | x in Range(L.n)) - outer, 1
  {
    seen', queue', inQueue' := seen, queue, inQueue;
    var cs := L.children[b];
    var i := 0;
    while i < |cs|
      invariant 0 <= i <= |cs|
      invariant seen <= seen'
      invariant Walked(L, h[..], h0, t, seen', y)
      invariant forall s :: s in seen' ==> Done(L, h0, t, seen', s) || s == b || (s in outer && L.leq[b][s])
      invariant QueueOk(L, queue', inQueue') && Flagged(L, h0, t, seen', inQueue')
      invariant forall x :: 0 <= x < L.n && inQueue[x] ==> inQueue'[x]
      invariant forall k :: 0 <= k < i ==> cs[k] in seen'
    {
      var a := cs[i];
      ghost var prev := seen';
      if a !in seen' {
        seen', queue', inQueue' := VisitChild(L, h, b, a, c, seen', queue', inQueue', h0, y, t, outer);
      }
      assert prev <= seen' && a in seen';
      forall k | 0 <= k <= i ensures cs[k] in seen' {
        if k < i {
          assert cs[k] in prev;
        }
      }
      i := i + 1;
    }
    DoneAfterChildren(L, h0, t, seen', b);
  }

  /** One unseen child a of b: dfs(a, bound). */
  method VisitChild(L: ValidLattice, h: array<nat>, b: nat, a: nat, c: nat, seen: set<nat>, queue: seq<nat>,
                    inQueue: seq<bool>, ghost h0: seq<nat>, ghost y: nat, ghost t: seq<nat>, ghost outer: set<nat>)
    returns (seen': set<nat>, queue': seq<nat>, inQueue': seq<bool>)
    requires Endo(L, h0) && Monotone(L, h0) && y < L.n && c < L.n && t == LoweredBelow(L, h0, y, c)
    requires h.Length == L.n && b < L.n && L.leq[b][y] && b !in outer && outer + {b} <= seen
    requires a in L.children[b] && a !in seen
    requires Walked(L, h[..], h0, t, seen, y)
    requires forall s :: s in seen ==> Done(L, h0, t, seen, s) || s == b || (s in outer && L.leq[b][s])
    requires QueueOk(L, queue, inQueue) && Flagged(L, h0, t, seen, inQueue)
    modifies h
    ensures seen <= seen' && a in seen'
    ensures Walked(L, h[..], h0, t, seen', y)
    ensures forall s :: s in seen' ==> Done(L, h0, t, seen', s) || s == b || (s in outer && L.leq[b][s])
    ensures QueueOk(L, queue', inQueue') && Flagged(L, h0, t, seen', inQueue')
    ensures forall x :: 0 <= x < L.n && inQueue[x] ==> inQueue'[x]
    decreases (set x | x in Range(L.n)) - outer, 0
  {
    ChildIsCovered(L, a, b);
    Trans(L, a, b, y);
    BeforeChild(L, h0, t, outer, seen, a, b);
    assert Range(L.n)[b] == b;
    seen', queue', inQueue' := Dfs(L, h, a, c, seen, queue, inQueue, h0, y, t);
    AfterChild(L, h0, t, outer, seen, seen', b);
  }

  /** A walk that has visited and finished y has produced t. */
  lemma WalkComplete(L: ValidLattice, h: seq<nat>, h0: seq<nat>, y: nat, c: nat, seen: set<nat>)
    requires Endo(L, h0) && y < L.n && c < L.n
    requires Walked(L, h, h0, LoweredBelow(L, h0, y, c), seen, y)
    requires Done(L, h0, LoweredBelow(L, h0, y, c), seen, y)
    ensures h == LoweredBelow(L, h0, y, c)
  {
    var t := LoweredBelow(L, h0, y, c);
    forall x | 0 <= x < L.n ensures h[x] == t[x] {
      if L.leq[x][y] {
        assert Settled(L, h0, t, seen, x);
      }
    }
  }

  /**
   * seen.clear(), dfs(y, c) (lattices.js:1030): lowers the down-set of y to its meet
   * with c, and queues every element that changes.
   */
  method LowerDown(L: ValidLattice, h: array<nat>, y: nat, c: nat, queue: seq<nat>, inQueue: seq<bool>)
    returns (queue': seq<nat>, inQueue': seq<bool>)
    requires h.Length == L.n && Endo(L, h[..]) && Monotone(L, h[..]) && y < L.n && c < L.n
    requires QueueOk(L, queue, inQueue)
    modifies h
    ensures h[..] == LoweredBelow(L, old(h[..]), y, c)
    ensures QueueOk(L, queue', inQueue')
    ensures forall x :: 0 <= x < L.n ==> (inQueue[x] ==> inQueue'[x]) && (h[x] != old(h[x]) ==> inQueue'[x])
  {
    ghost var h0 := h[..];
    ghost var t := LoweredBelow(L, h0, y, c);
    var seen: set<nat>;
    seen, queue', inQueue' := Dfs(L, h, y, c, {}, queue, inQueue, h0, y, t);
    WalkComplete(L, h[..], h0, y, c, seen);
  }

  // ---------------------------------------------------------------------
  // The queue loop.

  /**
   * One triple (a, b, a v b) of a popped element (lattices.js:1029-1030): when h
   * does not preserve the join of a and b, lower the down-set of a v b to
   * h[a] v h[b]. h stays monotone and above every join-preserving map below f,
   * and afterwards the pair is consistent or a v b is queued.
   */
  method CheckTriple(L: ValidLattice, h: array<nat>, t: Triple, queue: seq<nat>, inQueue: seq<bool>,
                     ghost f: seq<nat>)
    returns (queue': seq<nat>, inQueue': seq<bool>)
    requires h.Length == L.n && Endo(L, h[..]) && Monotone(L, h[..]) && Dominates(L, h[..], f)
    requires QueueOk(L, queue, inQueue) && IsTriple(L, t, false)
    modifies h
    ensures Endo(L, h[..]) && Monotone(L, h[..]) && Le(L, h[..], old(h[..])) && Dominates(L, h[..], f)
    ensures QueueOk(L, queue', inQueue') && SupportedAt(L, h[..], inQueue', t.0, t.1)
    ensures forall x :: 0 <= x < L.n ==> (inQueue[x] ==> inQueue'[x]) && (h[x] != old(h[x]) ==> inQueue'[x])
    ensures h[..] == old(h[..]) ==> queue' == queue
    ensures h[..] != old(h[..]) ==> Measure(L, h[..]) < Measure(L, old(h[..]))
  {
    var (a, b, ab) := t;
    var hab := L.lub[h[a]][h[b]];
    ghost var hb := h[..];
    if h[ab] != hab {
      LoweredBelowMonotone(L, hb, ab, hab);
      LoweredBelowSound(L, hb, f, a, b);
      MonotoneJoinBelow(L, hb, a, b);
      LubFacts(L, hb[ab], hab);
      queue', inQueue' := LowerDown(L, h, ab, hab, queue, inQueue);
      assert h[ab] != hb[ab];
      MeasureDecreases(L, h[..], hb);
    } else {
      queue', inQueue' := queue, inQueue;
      DominatesSelf(L, hb);
    }
  }

  /**
   * The triples of one popped element (lattices.js:1027-1031), one after the
   * other; afterwards every listed pair is supported again.
   */
  method CheckTriples(L: ValidLattice, h: array<nat>, ts: seq<Triple>, queue: seq<nat>, inQueue: seq<bool>,
                      ghost f: seq<nat>)
    returns (queue': seq<nat>, inQueue': seq<bool>)
    requires h.Length == L.n && Endo(L, h[..]) && Monotone(L, h[..]) && Dominates(L, h[..], f)
    requires QueueOk(L, queue, inQueue) && forall k :: 0 <= k < |ts| ==> IsTriple(L, ts[k], false)
    requires Supported(L, h[..], inQueue, false, ts)
    modifies h
    ensures Endo(L, h[..]) && Monotone(L, h[..]) && Le(L, h[..], old(h[..])) && Dominates(L, h[..], f)
    ensures QueueOk(L, queue', inQueue') && Supported(L, h[..], inQueue', false, [])
    ensures h[..] == old(h[..]) ==> queue' == queue
    ensures h[..] != old(h[..]) ==> Measure(L, h[..]) < Measure(L, old(h[..]))
  {
    ghost var hs := h[..];
    DominatesSelf(L, hs);
    queue', inQueue' := queue, inQueue;
    var i := 0;
    while i < |ts|
      invariant 0 <= i <= |ts|
      invariant Endo(L, h[..]) && Monotone(L, h[..]) && Le(L, h[..], hs) && Dominates(L, h[..], f)
      invariant QueueOk(L, queue', inQueue') && Supported(L, h[..], inQueue', false, ts[i..])
      invariant h[..] == hs ==> queue' == queue
      invariant h[..] != hs ==> Measure(L, h[..]) < Measure(L, hs)
    {
      ghost var hb := h[..];
      ghost var qb := inQueue';
      queue', inQueue' := CheckTriple(L, h, ts[i], queue', inQueue', f);
      LeTrans(L, h[..], hb, hs);
      assert ts[i..][0] == ts[i] && ts[i..][1..] == ts[i + 1..];
      CarrySupport(L, hb, h[..], qb, inQueue', false, ts[i..]);
      i := i + 1;
    }
  }

  /** A monotone map consistent on the listed pairs preserves every join. */
  lemma MonotoneListed(L: ValidLattice, h: seq<nat>)
    requires Endo(L, h) && Monotone(L, h) && ListedConsistent(L, h, false)
    ensures JoinPreserving(L, h)
  {
    forall a, b | 0 <= a < b < L.n ensures Consistent(L, h, a, b) {
      if !Eligible(L, a, b, false) {
        LubFacts(L, a, b);
        MonotoneComparable(L, h, a, b);
      }
    }
    PairsSuffice(L, h);
  }

  /** lattices.js:1002-1034: the greatest join-preserving map below the meet of f and g. */
  method GMeetMonoDfs(L: ValidLattice, f: seq<nat>, g: Option<seq<nat>>) returns (r: seq<nat>)
    requires Endo(L, f) && (g.Some? ==> Endo(L, g.value))
    ensures IsGreatestJoinBelow(L, r, Start(L, f, g))
  {
    var h := StartCopy(L, f, g);
    ghost var h0 := h[..];
    StartIsMeet(L, f, g, f);
    DominatesSelf(L, h0);
    var _ := MonoMaxBelow(L, h);
    MonoDominatesJoin(L, h[..], h0);
    var ts := BuildTriples(L, false);
    var queue := Range(L.n);
    var inQueue := seq(L.n, _ => true);
    FullQueue(L);
    while |queue| > 0
      invariant Endo(L, h[..]) && Monotone(L, h[..]) && Le(L, h[..], h0) && Dominates(L, h[..], h0)
      invariant QueueOk(L, queue, inQueue) && Supported(L, h[..], inQueue, false, [])
      decreases Measure(L, h[..]), |queue|
    {
      PopOk(L, queue, inQueue);
      var x := queue[|queue| - 1];
      queue := queue[..|queue| - 1];
      PopSupported(L, h[..], inQueue, false, ts, x);
      inQueue := inQueue[x := false];
      ghost var hs := h[..];
      queue, inQueue := CheckTriples(L, h, ts[x], queue, inQueue, h0);
      LeTrans(L, h[..], hs, h0);
    }
    DoneConsistent(L, h[..], inQueue, false);
    MonotoneListed(L, h[..]);
    r := h[..];
  }
}
