/**
 * The work list of the queue-driven solvers GMeetMonoDfs and GMeetEasy2: the
 * table triples[x] (lattices.js:990-999), which lists for each element x every
 * triple (a, b, a v b) with a < b in which x takes part, and the queue of
 * elements still to be looked at, with its inQueue flags.
 */
module Triples {
  import opened Utils
  import opened Lattices
  import opened Endos

  type Triple = (nat, nat, nat)

  /**
   * Whether the pair a < b gets a triple: as written, only when a v b is neither
   * a nor b (lattices.js:994); with comparable set, always.
   */
  ghost predicate Eligible(L: ValidLattice, a: nat, b: nat, comparable: bool)
    requires a < L.n && b < L.n
  {
    comparable || (L.lub[a][b] != a && L.lub[a][b] != b)
  }

  predicate Member(x: nat, t: Triple) {
    x == t.0 || x == t.1 || x == t.2
  }

  /** t is (a, b, a v b) for an eligible pair a < b. */
  ghost predicate IsTriple(L: ValidLattice, t: Triple, comparable: bool) {
    t.0 < t.1 < L.n && t.2 == L.lub[t.0][t.1] && Eligible(L, t.0, t.1, comparable)
  }

  /** The triple of a < b is in the lists of a, of b and of a v b. */
  ghost predicate FiledAt(L: ValidLattice, ts: seq<seq<Triple>>, a: nat, b: nat)
    requires |ts| == L.n && a < L.n && b < L.n
  {
    var t := (a, b, L.lub[a][b]);
    t in ts[a] && t in ts[b] && t in ts[L.lub[a][b]]
  }

  /** Every entry of ts[x] is a triple in which x takes part. */
  ghost predicate Entered(L: ValidLattice, ts: seq<seq<Triple>>, comparable: bool) {
    |ts| == L.n &&
    forall x, k :: 0 <= x < |ts| && 0 <= k < |ts[x]| ==> IsTriple(L, ts[x][k], comparable) && Member(x, ts[x][k])
  }

  /** ts is the triple table: its entries are triples, and every eligible pair is filed. */
  ghost predicate TripleIndex(L: ValidLattice, ts: seq<seq<Triple>>, comparable: bool) {
    Entered(L, ts, comparable) &&
    forall a, b :: 0 <= a < b < L.n && Eligible(L, a, b, comparable) ==> FiledAt(L, ts, a, b)
  }

  /** The pairs p < q that come before (a, b) in the order of the double loop are filed. */
  ghost predicate FiledBefore(L: ValidLattice, ts: seq<seq<Triple>>, comparable: bool, a: nat, b: nat)
    requires |ts| == L.n
  {
    forall p, q :: 0 <= p < q < L.n && Eligible(L, p, q, comparable) && (p < a || (p == a && q < b)) ==>
      FiledAt(L, ts, p, q)
  }

  /** Appending t to the list of one of its members keeps the table well formed. */
  lemma FileOne(L: ValidLattice, ts: seq<seq<Triple>>, comparable: bool, x: nat, t: Triple, a: nat, b: nat)
    requires Entered(L, ts, comparable) && FiledBefore(L, ts, comparable, a, b)
    requires x < L.n && IsTriple(L, t, comparable) && Member(x, t)
    ensures Entered(L, ts[x := ts[x] + [t]], comparable) && FiledBefore(L, ts[x := ts[x] + [t]], comparable, a, b)
    ensures forall y :: 0 <= y < L.n && t in ts[y] ==> t in ts[x := ts[x] + [t]][y]
    ensures t in ts[x := ts[x] + [t]][x]
  {
    var ts' := ts[x := ts[x] + [t]];
    assert forall y, u :: 0 <= y < L.n && u in ts[y] ==> u in ts'[y];
    forall y, k | 0 <= y < |ts'| && 0 <= k < |ts'[y]| ensures IsTriple(L, ts'[y][k], comparable) && Member(y, ts'[y][k]) {
      if y == x && k == |ts[x]| {
        assert ts'[y][k] == t;
      } else {
        assert ts'[y][k] == ts[y][k];
      }
    }
    assert ts'[x][|ts[x]|] == t;
  }

  /** lattices.js:990-999; with comparable set, the pairs with a v b in {a, b} are filed as well. */
  method BuildTriples(L: ValidLattice, comparable: bool) returns (ts: seq<seq<Triple>>)
    ensures TripleIndex(L, ts, comparable)
  {
    ts := seq(L.n, _ => []);
    var a := 0;
    while a < L.n
      invariant 0 <= a <= L.n
      invariant Entered(L, ts, comparable) && FiledBefore(L, ts, comparable, a, a + 1)
    {
      var b := a + 1;
      while b < L.n
        invariant a < b <= L.n
        invariant Entered(L, ts, comparable) && FiledBefore(L, ts, comparable, a, b)
      {
        var ab := L.lub[a][b];
        if comparable || (ab != a && ab != b) {
          var t := (a, b, ab);
          FileOne(L, ts, comparable, a, t, a, b);
          ts := ts[a := ts[a] + [t]];
          FileOne(L, ts, comparable, b, t, a, b);
          ts := ts[b := ts[b] + [t]];
          FileOne(L, ts, comparable, ab, t, a, b);
          ts := ts[ab := ts[ab] + [t]];
          assert FiledAt(L, ts, a, b);
        }
        b := b + 1;
      }
      a := a + 1;
    }
  }

  // ---------------------------------------------------------------------
  // The queue: distinct elements, flagged in inQueue.

  ghost predicate QueueOk(L: ValidLattice, queue: seq<nat>, inQueue: seq<bool>) {
    && |inQueue| == L.n
    && NoDup(queue)
    && (forall i :: 0 <= i < |queue| ==> queue[i] < L.n)
    && forall x :: 0 <= x < L.n ==> (inQueue[x] <==> x in queue)
  }

  /** Every element starts in the queue (lattices.js:1021-1022, 1078-1079). */
  lemma FullQueue(L: ValidLattice)
    ensures QueueOk(L, Range(L.n), seq(L.n, _ => true))
  {
    var q := Range(L.n);
    forall x | 0 <= x < L.n ensures x in q {
      assert q[x] == x;
    }
  }

  /** Push x unless it is flagged already (lattices.js:1015, 1088-1092). */
  function Push(queue: seq<nat>, inQueue: seq<bool>, x: nat): (r: (seq<nat>, seq<bool>))
    requires x < |inQueue|
    ensures |r.1| == |inQueue| && r.1[x]
    ensures forall z :: 0 <= z < |inQueue| && z != x ==> r.1[z] == inQueue[z]
    ensures r.0 == queue || r.0 == queue + [x]
  {
    if inQueue[x] then (queue, inQueue) else (queue + [x], inQueue[x := true])
  }

  lemma PushOk(L: ValidLattice, queue: seq<nat>, inQueue: seq<bool>, x: nat)
    requires QueueOk(L, queue, inQueue) && x < L.n
    ensures QueueOk(L, Push(queue, inQueue, x).0, Push(queue, inQueue, x).1)
  {
    var (q, f) := Push(queue, inQueue, x);
    if !inQueue[x] {
      forall z | 0 <= z < L.n ensures f[z] <==> z in q {
        assert z in q <==> z in queue || z == x;
      }
      forall i, j | 0 <= i < j < |q| ensures q[i] != q[j] {
        if j == |queue| {
          assert q[i] in queue;
        }
      }
    }
  }

  /** Popping the last element keeps the queue well formed and unflags it (lattices.js:1025-1026). */
  lemma PopOk(L: ValidLattice, queue: seq<nat>, inQueue: seq<bool>)
    requires QueueOk(L, queue, inQueue) && |queue| > 0
    ensures queue[|queue| - 1] < L.n
    ensures QueueOk(L, queue[..|queue| - 1], inQueue[queue[|queue| - 1] := false])
  {
    var x := queue[|queue| - 1];
    var q := queue[..|queue| - 1];
    forall z | 0 <= z < L.n ensures inQueue[x := false][z] <==> z in q {
      if z in q {
        var i :| 0 <= i < |q| && q[i] == z;
        assert queue[i] == z;
      }
      if z != x && z in queue {
        var i :| 0 <= i < |queue| && queue[i] == z;
        assert q[i] == z;
      }
    }
  }

  // ---------------------------------------------------------------------
  // The invariant of the queue loops: every listed pair whose join h may not
  // preserve has an element in the queue, or its triple is still pending.

  ghost predicate SupportedAt(L: ValidLattice, h: seq<nat>, inQueue: seq<bool>, a: nat, b: nat)
    requires Endo(L, h) && |inQueue| == L.n && a < L.n && b < L.n
  {
    Consistent(L, h, a, b) || inQueue[a] || inQueue[b] || inQueue[L.lub[a][b]]
  }

  ghost predicate Supported(L: ValidLattice, h: seq<nat>, inQueue: seq<bool>, comparable: bool, pending: seq<Triple>)
    requires Endo(L, h) && |inQueue| == L.n
  {
    forall a, b :: 0 <= a < b < L.n && Eligible(L, a, b, comparable) ==>
      SupportedAt(L, h, inQueue, a, b) || (a, b, L.lub[a][b]) in pending
  }

  /** h is consistent on every eligible pair. */
  ghost predicate ListedConsistent(L: ValidLattice, h: seq<nat>, comparable: bool)
    requires Endo(L, h)
  {
    forall a, b :: 0 <= a < b < L.n && Eligible(L, a, b, comparable) ==> Consistent(L, h, a, b)
  }

  /** Once x leaves the queue, the pairs it supported are all in triples[x]. */
  lemma PopSupported(L: ValidLattice, h: seq<nat>, inQueue: seq<bool>, comparable: bool, ts: seq<seq<Triple>>, x: nat)
    requires Endo(L, h) && |inQueue| == L.n && TripleIndex(L, ts, comparable) && x < L.n
    requires Supported(L, h, inQueue, comparable, [])
    ensures Supported(L, h, inQueue[x := false], comparable, ts[x])
  {
    forall a, b | 0 <= a < b < L.n && Eligible(L, a, b, comparable)
      ensures SupportedAt(L, h, inQueue[x := false], a, b) || (a, b, L.lub[a][b]) in ts[x]
    {
      assert FiledAt(L, ts, a, b);
    }
  }

  /**
   * One step of a queue loop: each changed element is flagged, no flag is cleared,
   * and the first pending triple is supported afterwards.
   */
  lemma CarrySupport(L: ValidLattice, h: seq<nat>, h': seq<nat>, inQueue: seq<bool>, inQueue': seq<bool>,
                     comparable: bool, pending: seq<Triple>)
    requires Endo(L, h) && Endo(L, h') && |inQueue| == L.n && |inQueue'| == L.n
    requires Supported(L, h, inQueue, comparable, pending) && |pending| > 0
    requires forall x :: 0 <= x < L.n ==> (inQueue[x] ==> inQueue'[x]) && (h'[x] != h[x] ==> inQueue'[x])
    requires var t := pending[0]; t.0 < L.n && t.1 < L.n && t.2 == L.lub[t.0][t.1] && SupportedAt(L, h', inQueue', t.0, t.1)
    ensures Supported(L, h', inQueue', comparable, pending[1..])
  {
    forall a, b | 0 <= a < b < L.n && Eligible(L, a, b, comparable)
      ensures SupportedAt(L, h', inQueue', a, b) || (a, b, L.lub[a][b]) in pending[1..]
    {
      var ab := L.lub[a][b];
      if (a, b, ab) in pending && (a, b, ab) !in pending[1..] {
        assert pending[0] == (a, b, ab);
      } else if Consistent(L, h, a, b) && h'[a] == h[a] && h'[b] == h[b] && h'[ab] == h[ab] {
        assert Consistent(L, h', a, b);
      }
    }
  }

  /** An empty queue leaves every eligible pair consistent. */
  lemma DoneConsistent(L: ValidLattice, h: seq<nat>, inQueue: seq<bool>, comparable: bool)
    requires Endo(L, h) && QueueOk(L, [], inQueue) && Supported(L, h, inQueue, comparable, [])
    ensures ListedConsistent(L, h, comparable)
  {
  }
}
