/**
 * GMeetPlus (lattices.js:637-708) and the helpers it shares with the other
 * solvers: pack2/unpack2, which number unordered pairs, and setPop.
 *
 * Every pair (u, v) is kept in one of three places: sup[u v v], the pairs whose
 * join h currently preserves; con, pairs where h(u v v) lies strictly above
 * h(u) v h(v) and can be lowered to it; and fail, pairs where h(u) or h(v) must
 * come down. Whenever h(x) changes, the pairs filed under sup[x] go to fail and
 * checkSupports(x) looks at every pair (x, v) again.
 */
module Plus {
  import opened Utils
  import opened Lattices
  import opened Endos
  import opened Closures
  import opened Solvers

  // ---------------------------------------------------------------------
  // pack2 / unpack2 (lattices.js:487-492): the pair {a, b} as min*n + max.

  function Pack(n: nat, a: nat, b: nat): nat
    decreases if a > b then 1 else 0
  {
    if a > b then Pack(n, b, a) else a * n + b
  }

  function Unpack(n: nat, p: nat): (r: (nat, nat))
    requires n > 0
    ensures r.1 < n && r.0 * n + r.1 == p
  {
    (p / n, p % n)
  }

  /** p is the number of some pair. */
  ghost predicate Packed(n: nat, p: nat) {
    n > 0 && Unpack(n, p).0 <= Unpack(n, p).1
  }

  lemma MulMono(x: nat, y: nat, n: nat)
    requires x <= y
    ensures x * n <= y * n
  {
    var d := y - x;
    assert y * n == x * n + d * n;
  }

  /** Division by n undoes a * n + b for b < n. */
  lemma DivMod(n: nat, a: nat, b: nat)
    requires b < n
    ensures (a * n + b) / n == a && (a * n + b) % n == b
  {
    var p := a * n + b;
    var q := p / n;
    if q > a {
      MulMono(a + 1, q, n);
    } else if q < a {
      MulMono(q + 1, a, n);
    }
  }

  /** lattices.js:489-492: pack2 is symmetric, below n*n, and unpack2 recovers (min, max). */
  lemma UnpackPack(n: nat, a: nat, b: nat)
    requires a < n && b < n
    ensures Pack(n, a, b) == Pack(n, b, a) && Pack(n, a, b) < n * n
    ensures Packed(n, Pack(n, a, b))
    ensures Unpack(n, Pack(n, a, b)) == if a <= b then (a, b) else (b, a)
  {
    var lo, hi := if a <= b then a else b, if a <= b then b else a;
    assert Pack(n, a, b) == lo * n + hi;
    DivMod(n, lo, hi);
    MulMono(lo + 1, n, n);
  }

  /** Every pair number is the number of the pair it unpacks to. */
  lemma PackUnpack(n: nat, p: nat)
    requires Packed(n, p)
    ensures Pack(n, Unpack(n, p).0, Unpack(n, p).1) == p
  {
  }

  /** Two pairs with the same number are the same pair, so they have the same join. */
  lemma SamePair(L: ValidLattice, a: nat, b: nat, u: nat, v: nat)
    requires a < L.n && b < L.n && u < L.n && v < L.n && Pack(L.n, a, b) == Pack(L.n, u, v)
    ensures (a == u && b == v) || (a == v && b == u)
    ensures L.lub[a][b] == L.lub[u][v]
  {
    UnpackPack(L.n, a, b);
    UnpackPack(L.n, u, v);
    LubFacts(L, a, b);
  }

  /** setPop (lattices.js:495-498): some element and the rest, or nothing for the empty set. */
  method SetPop(s: set<nat>) returns (k: Option<nat>, rest: set<nat>)
    ensures s == {} ==> k == None && rest == s
    ensures s != {} ==> k.Some? && k.value in s && rest == s - {k.value}
  {
    if s == {} {
      return None, s;
    }
    var x :| x in s;
    return Some(x), s - {x};
  }

  // ---------------------------------------------------------------------
  // The bookkeeping GMeetPlus keeps.

  ghost predicate Comparable(L: ValidLattice, a: nat, b: nat)
    requires a < L.n && b < L.n
  {
    L.leq[a][b] || L.leq[b][a]
  }

  /** checkSupports(u) has still to look at the pairs (u, v) with v >= i. */
  predicate Pending(u: nat, i: nat, a: nat, b: nat) {
    (a == u && b >= i) || (b == u && a >= i)
  }

  /** An entry p of sup[w]: a pair with join w whose join h preserves, unless it is pending. */
  ghost predicate SupEntry(L: ValidLattice, h: seq<nat>, w: nat, p: nat, u: nat, i: nat)
    requires Endo(L, h)
  {
    Packed(L.n, p) &&
    var (a, b) := Unpack(L.n, p);
    L.lub[a][b] == w && (Consistent(L, h, a, b) || Pending(u, i, a, b))
  }

  ghost predicate SupOk(L: ValidLattice, h: seq<nat>, sup: seq<set<nat>>, u: nat, i: nat)
    requires Endo(L, h)
  {
    |sup| == L.n &&
    forall w, p :: 0 <= w < L.n && p in sup[w] ==> SupEntry(L, h, w, p, u, i)
  }

  ghost predicate WorkOk(L: ValidLattice, s: set<nat>) {
    forall p :: p in s ==> Packed(L.n, p)
  }

  /** con only holds pairs whose join is neither of them: incomparable pairs. */
  ghost predicate ConOk(L: ValidLattice, con: set<nat>) {
    forall p :: p in con ==>
      Packed(L.n, p) && var (a, b) := Unpack(L.n, p); L.lub[a][b] != a && L.lub[a][b] != b
  }

  /**
   * The pair (a, b) is filed in sup or in one of the work sets; only a
   * comparable pair may be left out, and then h preserves its join unless it is pending.
   */
  ghost predicate CoveredAt(L: ValidLattice, h: seq<nat>, sup: seq<set<nat>>, work: set<nat>, u: nat, i: nat, a: nat, b: nat)
    requires Endo(L, h) && |sup| == L.n && a < L.n && b < L.n
  {
    || Pack(L.n, a, b) in sup[L.lub[a][b]]
    || Pack(L.n, a, b) in work
    || (Comparable(L, a, b) && (Consistent(L, h, a, b) || Pending(u, i, a, b)))
  }

  ghost predicate Covered(L: ValidLattice, h: seq<nat>, sup: seq<set<nat>>, work: set<nat>, u: nat, i: nat)
    requires Endo(L, h) && |sup| == L.n
  {
    forall a, b :: 0 <= a < L.n && 0 <= b < L.n ==> CoveredAt(L, h, sup, work, u, i, a, b)
  }

  /**
   * The whole bookkeeping, while checkSupports(u) is at i; extra holds the
   * pairs currently in nobody's hands (the one just popped).
   */
  ghost predicate Tracking(L: ValidLattice, h: seq<nat>, sup: seq<set<nat>>, con: set<nat>, fail: set<nat>,
                           extra: set<nat>, u: nat, i: nat)
  {
    && Endo(L, h) && SupOk(L, h, sup, u, i)
    && ConOk(L, con) && WorkOk(L, fail) && WorkOk(L, extra)
    && Covered(L, h, sup, con + fail + extra, u, i)
  }

  /** The bookkeeping with nothing pending. */
  ghost predicate Tracked(L: ValidLattice, h: seq<nat>, sup: seq<set<nat>>, con: set<nat>, fail: set<nat>,
                          extra: set<nat>)
  {
    Tracking(L, h, sup, con, fail, extra, 0, L.n)
  }

  /** isCon (lattices.js:676): h(u v v) lies strictly above h(u) v h(v). */
  predicate IsCon(L: ValidLattice, h: seq<nat>, u: nat, v: nat)
    requires Endo(L, h) && u < L.n && v < L.n
  {
    L.gt[h[L.lub[u][v]]][L.lub[h[u]][h[v]]]
  }

  /** isFail (lattices.js:690): h(x) v h(y) is not below h(x v y). */
  predicate IsFail(L: ValidLattice, h: seq<nat>, x: nat, y: nat)
    requires Endo(L, h) && x < L.n && y < L.n
  {
    !L.geq[h[L.lub[x][y]]][L.lub[h[x]][h[y]]]
  }

  /**
   * decideAdd (lattices.js:661-668): file the pair under sup[u v v] when h
   * preserves its join, in con when h(u v v) lies strictly above h(u) v h(v),
   * and in fail otherwise.
   */
  function DecideAdd(L: ValidLattice, h: seq<nat>, sup: seq<set<nat>>, con: set<nat>, fail: set<nat>, u: nat, v: nat)
    : (r: (seq<set<nat>>, set<nat>, set<nat>))
    requires Endo(L, h) && |sup| == L.n && u < L.n && v < L.n
    ensures |r.0| == L.n && forall x :: 0 <= x < L.n && x != L.lub[u][v] ==> r.0[x] == sup[x]
    ensures r.0[L.lub[u][v]] == sup[L.lub[u][v]] + (if Consistent(L, h, u, v) then {Pack(L.n, u, v)} else {})
    ensures r.1 == con + (if !Consistent(L, h, u, v) && L.gt[h[L.lub[u][v]]][L.lub[h[u]][h[v]]] then {Pack(L.n, u, v)} else {})
    ensures r.2 == fail + (if !Consistent(L, h, u, v) && !L.gt[h[L.lub[u][v]]][L.lub[h[u]][h[v]]] then {Pack(L.n, u, v)} else {})
  {
    var w := L.lub[u][v];
    var p := Pack(L.n, u, v);
    if L.lub[h[u]][h[v]] == h[w] then (sup[w := sup[w] + {p}], con, fail)
    else if L.gt[h[w]][L.lub[h[u]][h[v]]] then (sup, con + {p}, fail)
    else (sup, con, fail + {p})
  }

  /** A pair whose join h(u v v) lies strictly above h(u) v h(v) is incomparable. */
  lemma GtNotComponent(L: ValidLattice, h: seq<nat>, u: nat, v: nat)
    requires Endo(L, h) && u < L.n && v < L.n
    ensures L.lub[u][v] == u || L.lub[u][v] == v ==> !L.gt[h[L.lub[u][v]]][L.lub[h[u]][h[v]]]
  {
    var w := L.lub[u][v];
    var c := L.lub[h[u]][h[v]];
    LubFacts(L, h[u], h[v]);
    Strict(L, h[w], c);
    if (w == u || w == v) && L.leq[c][h[w]] {
      Antisym(L, c, h[w]);
    }
  }

  /** decideAdd keeps the bookkeeping and files the pair (u, v), so it leaves extra. */
  lemma DecideAddKeeps(L: ValidLattice, h: seq<nat>, sup: seq<set<nat>>, con: set<nat>, fail: set<nat>,
                       extra: set<nat>, extra': set<nat>, x: nat, i: nat, u: nat, v: nat)
    requires Tracking(L, h, sup, con, fail, extra, x, i) && u < L.n && v < L.n
    requires extra - {Pack(L.n, u, v)} <= extra' && WorkOk(L, extra')
    ensures var r := DecideAdd(L, h, sup, con, fail, u, v); Tracking(L, h, r.0, r.1, r.2, extra', x, i)
  {
    var w := L.lub[u][v];
    var p := Pack(L.n, u, v);
    var r := DecideAdd(L, h, sup, con, fail, u, v);
    UnpackPack(L.n, u, v);
    LubFacts(L, u, v);
    LubFacts(L, h[u], h[v]);
    GtNotComponent(L, h, u, v);
    forall w', q | 0 <= w' < L.n && q in r.0[w'] ensures SupEntry(L, h, w', q, x, i) {
      if q !in sup[w'] {
        assert w' == w && q == p;
      }
    }
    forall a, b | 0 <= a < L.n && 0 <= b < L.n ensures CoveredAt(L, h, r.0, r.1 + r.2 + extra', x, i, a, b) {
      assert CoveredAt(L, h, sup, con + fail + extra, x, i, a, b);
      if Pack(L.n, a, b) == p {
        SamePair(L, a, b, u, v);
      }
    }
  }

  /** A consistent pair (u, v) filed under sup[u v v] leaves extra. */
  lemma FileConsistent(L: ValidLattice, h: seq<nat>, sup: seq<set<nat>>, con: set<nat>, fail: set<nat>,
                       extra: set<nat>, x: nat, i: nat, u: nat, v: nat)
    requires Tracking(L, h, sup, con, fail, extra, x, i) && u < L.n && v < L.n && Consistent(L, h, u, v)
    ensures var w := L.lub[u][v];
      Tracking(L, h, sup[w := sup[w] + {Pack(L.n, u, v)}], con, fail, extra - {Pack(L.n, u, v)}, x, i)
  {
    var w := L.lub[u][v];
    var p := Pack(L.n, u, v);
    UnpackPack(L.n, u, v);
    DecideAddKeeps(L, h, sup, con, fail, extra, extra - {p}, x, i, u, v);
    var r := DecideAdd(L, h, sup, con, fail, u, v);
    var sup' := sup[w := sup[w] + {p}];
    assert forall k :: 0 <= k < L.n ==> r.0[k] == sup'[k];
    assert r.0 == sup';
  }

  /** Taking the pair (u, v) out of sup[u v v] puts it in extra. */
  lemma Unfile(L: ValidLattice, h: seq<nat>, sup: seq<set<nat>>, con: set<nat>, fail: set<nat>,
               extra: set<nat>, x: nat, i: nat, u: nat, v: nat)
    requires Tracking(L, h, sup, con, fail, extra, x, i) && u < L.n && v < L.n
    ensures var w := L.lub[u][v];
      Tracking(L, h, sup[w := sup[w] - {Pack(L.n, u, v)}], con, fail, extra + {Pack(L.n, u, v)}, x, i)
  {
    var w := L.lub[u][v];
    var p := Pack(L.n, u, v);
    var sup' := sup[w := sup[w] - {p}];
    UnpackPack(L.n, u, v);
    forall w', q | 0 <= w' < L.n && q in sup'[w'] ensures SupEntry(L, h, w', q, x, i) {
      assert q in sup[w'];
    }
    forall a, b | 0 <= a < L.n && 0 <= b < L.n ensures CoveredAt(L, h, sup', con + fail + (extra + {p}), x, i, a, b) {
      assert CoveredAt(L, h, sup, con + fail + extra, x, i, a, b);
    }
  }

  /** Once the pair (u, v) is consistent, or filed outside sup, checkSupports(u) may move past v. */
  lemma Advance(L: ValidLattice, h: seq<nat>, sup: seq<set<nat>>, con: set<nat>, fail: set<nat>,
                extra: set<nat>, u: nat, v: nat)
    requires Tracking(L, h, sup, con, fail, extra, u, v) && u < L.n && v < L.n
    requires Consistent(L, h, u, v) ||
      (Pack(L.n, u, v) !in sup[L.lub[u][v]] && Pack(L.n, u, v) in con + fail + extra)
    ensures Tracking(L, h, sup, con, fail, extra, u, v + 1)
  {
    var v' := v + 1;
    SupAdvance(L, h, sup, u, v);
    CoverAdvance(L, h, sup, con + fail + extra, u, v);
    assert SupOk(L, h, sup, u, v') && Covered(L, h, sup, con + fail + extra, u, v');
  }

  lemma SupAdvance(L: ValidLattice, h: seq<nat>, sup: seq<set<nat>>, u: nat, v: nat)
    requires Endo(L, h) && SupOk(L, h, sup, u, v) && u < L.n && v < L.n
    requires Consistent(L, h, u, v) || Pack(L.n, u, v) !in sup[L.lub[u][v]]
    ensures SupOk(L, h, sup, u, v + 1)
  {
    var v' := v + 1;
    UnpackPack(L.n, u, v);
    LubFacts(L, u, v);
    LubFacts(L, h[u], h[v]);
    forall w, q | 0 <= w < L.n && q in sup[w] ensures SupEntry(L, h, w, q, u, v') {
      assert SupEntry(L, h, w, q, u, v);
      var (a, b) := Unpack(L.n, q);
      if Pending(u, v, a, b) && !Pending(u, v', a, b) {
        PackUnpack(L.n, q);
        UnpackPack(L.n, a, b);
      }
    }
  }

  lemma CoverAdvance(L: ValidLattice, h: seq<nat>, sup: seq<set<nat>>, work: set<nat>, u: nat, v: nat)
    requires Endo(L, h) && |sup| == L.n && Covered(L, h, sup, work, u, v) && u < L.n && v < L.n
    requires Consistent(L, h, u, v) || Pack(L.n, u, v) in work
    ensures Covered(L, h, sup, work, u, v + 1)
  {
    var v' := v + 1;
    LubFacts(L, u, v);
    LubFacts(L, h[u], h[v]);
    forall a, b | 0 <= a < L.n && 0 <= b < L.n ensures CoveredAt(L, h, sup, work, u, v', a, b) {
      assert CoveredAt(L, h, sup, work, u, v, a, b);
      if Pending(u, v, a, b) && !Pending(u, v', a, b) {
        UnpackPack(L.n, a, b);
      }
    }
  }

  /** One round of the loop of checkSupports(u) (lattices.js:652-657). */
  lemma CheckStep(L: ValidLattice, h: seq<nat>, sup: seq<set<nat>>, con: set<nat>, fail: set<nat>,
                  extra: set<nat>, u: nat, v: nat)
    requires Tracking(L, h, sup, con, fail, extra, u, v) && u < L.n && v < L.n
    ensures var w := L.lub[u][v];
      var r := if Consistent(L, h, u, v) then (sup, con, fail)
               else DecideAdd(L, h, sup[w := sup[w] - {Pack(L.n, u, v)}], con, fail, u, v);
      Tracking(L, h, r.0, r.1, r.2, extra, u, v + 1)
  {
    var w := L.lub[u][v];
    if !Consistent(L, h, u, v) {
      var p := Pack(L.n, u, v);
      Unfile(L, h, sup, con, fail, extra, u, v, u, v);
      UnpackPack(L.n, u, v);
      DecideAddKeeps(L, h, sup[w := sup[w] - {p}], con, fail, extra + {p}, extra, u, v, u, v);
      var r := DecideAdd(L, h, sup[w := sup[w] - {p}], con, fail, u, v);
      Advance(L, h, r.0, r.1, r.2, extra, u, v);
    } else {
      Advance(L, h, sup, con, fail, extra, u, v);
    }
  }

  /** After checkSupports(u) has seen every v, nothing is pending. */
  lemma SettleIndex(L: ValidLattice, h: seq<nat>, sup: seq<set<nat>>, con: set<nat>, fail: set<nat>,
                    extra: set<nat>, u: nat)
    requires Tracking(L, h, sup, con, fail, extra, u, L.n)
    ensures Tracked(L, h, sup, con, fail, extra)
  {
    forall w, q | 0 <= w < L.n && q in sup[w] ensures SupEntry(L, h, w, q, 0, L.n) {
      assert SupEntry(L, h, w, q, u, L.n);
    }
    forall a, b | 0 <= a < L.n && 0 <= b < L.n ensures CoveredAt(L, h, sup, con + fail + extra, 0, L.n, a, b) {
      assert CoveredAt(L, h, sup, con + fail + extra, u, L.n, a, b);
    }
  }

  /**
   * Writing h(x) := val and moving sup[x] to fail keeps the bookkeeping, with
   * the pairs (x, v) left for checkSupports(x).
   */
  lemma AfterWrite(L: ValidLattice, h: seq<nat>, sup: seq<set<nat>>, con: set<nat>, fail: set<nat>,
                   extra: set<nat>, x: nat, val: nat)
    requires Tracked(L, h, sup, con, fail, extra) && x < L.n && val < L.n
    ensures Tracking(L, h[x := val], sup[x := {}], con, fail + sup[x], extra, x, 0)
  {
    var h' := h[x := val];
    var sup' := sup[x := {}];
    forall w, q | 0 <= w < L.n && q in sup'[w] ensures SupEntry(L, h', w, q, x, 0) {
      assert SupEntry(L, h, w, q, 0, L.n);
    }
    forall q | q in sup[x] ensures Packed(L.n, q) {
      assert SupEntry(L, h, x, q, 0, L.n);
    }
    forall a, b | 0 <= a < L.n && 0 <= b < L.n ensures CoveredAt(L, h', sup', con + (fail + sup[x]) + extra, x, 0, a, b) {
      assert CoveredAt(L, h, sup, con + fail + extra, 0, L.n, a, b);
      LubFacts(L, a, b);
    }
  }

  /** With fail empty, h preserves every comparable join, so it is monotone. */
  lemma SettledMonotone(L: ValidLattice, h: seq<nat>, sup: seq<set<nat>>, con: set<nat>)
    requires Tracked(L, h, sup, con, {}, {})
    ensures Monotone(L, h)
  {
    forall a, b | 0 <= a < L.n && 0 <= b < L.n && L.leq[a][b] ensures L.leq[h[a]][h[b]] {
      assert CoveredAt(L, h, sup, con + {} + {}, 0, L.n, a, b);
      UnpackPack(L.n, a, b);
      LubFacts(L, a, b);
      LubFacts(L, h[a], h[b]);
      if Pack(L.n, a, b) in sup[L.lub[a][b]] {
        assert SupEntry(L, h, L.lub[a][b], Pack(L.n, a, b), 0, L.n);
      }
    }
  }

  /** For monotone h, decideAdd never files a pair in fail. */
  lemma MonotoneDecide(L: ValidLattice, h: seq<nat>, u: nat, v: nat)
    requires Endo(L, h) && Monotone(L, h) && u < L.n && v < L.n
    ensures Consistent(L, h, u, v) || L.gt[h[L.lub[u][v]]][L.lub[h[u]][h[v]]]
  {
    var w := L.lub[u][v];
    LubFacts(L, u, v);
    assert L.leq[h[u]][h[w]] && L.leq[h[v]][h[w]];
    LubLeast(L, h[u], h[v], h[w]);
    Strict(L, h[w], L.lub[h[u]][h[v]]);
  }

  /** With both work sets empty, h preserves every join. */
  lemma SettledJoin(L: ValidLattice, h: seq<nat>, sup: seq<set<nat>>)
    requires Tracked(L, h, sup, {}, {}, {})
    ensures JoinPreserving(L, h)
  {
    forall a, b | 0 <= a < L.n && 0 <= b < L.n ensures Consistent(L, h, a, b) {
      var none: set<nat> := {};
      assert CoveredAt(L, h, sup, none + none + none, 0, L.n, a, b);
      UnpackPack(L.n, a, b);
      LubFacts(L, a, b);
      LubFacts(L, h[a], h[b]);
      if Pack(L.n, a, b) in sup[L.lub[a][b]] {
        assert SupEntry(L, h, L.lub[a][b], Pack(L.n, a, b), 0, L.n);
      }
    }
  }

  /** The numbers of the incomparable pairs from position i of the list on. */
  ghost function Rest(L: ValidLattice, i: nat): set<nat> {
    set k | i <= k < |L.uncomparables| :: Pack(L.n, L.uncomparables[k].0, L.uncomparables[k].1)
  }

  lemma RestStep(L: ValidLattice, i: nat)
    requires i < |L.uncomparables|
    ensures Rest(L, i + 1) <= Rest(L, i)
    ensures Rest(L, i) - {Pack(L.n, L.uncomparables[i].0, L.uncomparables[i].1)} <= Rest(L, i + 1)
  {
    forall q | q in Rest(L, i) - {Pack(L.n, L.uncomparables[i].0, L.uncomparables[i].1)} ensures q in Rest(L, i + 1) {
      var k :| i <= k < |L.uncomparables| && q == Pack(L.n, L.uncomparables[k].0, L.uncomparables[k].1);
      assert k != i;
    }
  }

  /** Before the seeding loop, every incomparable pair is still to be filed and h is monotone. */
  lemma SeedStart(L: ValidLattice, h: seq<nat>)
    requires Endo(L, h) && Monotone(L, h)
    ensures Tracked(L, h, seq(L.n, _ => {}), {}, {}, Rest(L, 0))
  {
    var sup: seq<set<nat>> := seq(L.n, _ => {});
    var none: set<nat> := {};
    forall q | q in Rest(L, 0) ensures Packed(L.n, q) {
      var k :| 0 <= k < |L.uncomparables| && q == Pack(L.n, L.uncomparables[k].0, L.uncomparables[k].1);
      assert L.uncomparables[k] in L.uncomparables;
      Uncomparable(L, L.uncomparables[k].0, L.uncomparables[k].1);
      UnpackPack(L.n, L.uncomparables[k].0, L.uncomparables[k].1);
    }
    forall a, b | 0 <= a < L.n && 0 <= b < L.n ensures CoveredAt(L, h, sup, none + none + Rest(L, 0), 0, L.n, a, b) {
      if Comparable(L, a, b) {
        MonotoneComparable(L, h, a, b);
      } else {
        var lo, hi := if a <= b then a else b, if a <= b then b else a;
        Uncomparable(L, lo, hi);
        var k :| 0 <= k < |L.uncomparables| && L.uncomparables[k] == (lo, hi);
        UnpackPack(L.n, a, b);
        assert Pack(L.n, L.uncomparables[k].0, L.uncomparables[k].1) in Rest(L, 0);
      }
    }
  }

  /** If h(x) and h(y) are both below c, so is their join. */
  lemma LubLeastImp(L: ValidLattice, a: nat, b: nat, c: nat)
    requires a < L.n && b < L.n && c < L.n
    ensures L.leq[a][c] && L.leq[b][c] ==> L.leq[L.lub[a][b]][c]
  {
    if L.leq[a][c] && L.leq[b][c] {
      LubLeast(L, a, b, c);
    }
  }

  // ---------------------------------------------------------------------
  // The solver's steps. h is the solver's array; sup, con and fail, which the
  // closures of GMeetPlus share, are passed in and handed back.

  /** The body of the loop of checkSupports(u) for one v (lattices.js:652-657). */
  method CheckPair(L: ValidLattice, h: seq<nat>, u: nat, v: nat, sup: seq<set<nat>>, con: set<nat>, fail: set<nat>,
                   ghost extra: set<nat>)
    returns (sup': seq<set<nat>>, con': set<nat>, fail': set<nat>)
    requires u < L.n && v < L.n && Tracking(L, h, sup, con, fail, extra, u, v)
    ensures Tracking(L, h, sup', con', fail', extra, u, v + 1)
    ensures Consistent(L, h, u, v) ==> sup' == sup && con' == con && fail' == fail
  {
    CheckStep(L, h, sup, con, fail, extra, u, v);
    var w := L.lub[u][v];
    sup', con', fail' := sup, con, fail;
    if L.lub[h[u]][h[v]] != h[w] {
      var r := DecideAdd(L, h, sup[w := sup[w] - {Pack(L.n, u, v)}], con, fail, u, v);
      sup', con', fail' := r.0, r.1, r.2;
    }
  }

  /** checkSupports(u) (lattices.js:650-659): refile every pair (u, v) whose join h no longer preserves. */
  method CheckSupports(L: ValidLattice, h: seq<nat>, u: nat, sup: seq<set<nat>>, con: set<nat>, fail: set<nat>,
                       ghost extra: set<nat>)
    returns (sup': seq<set<nat>>, con': set<nat>, fail': set<nat>)
    requires u < L.n && Tracking(L, h, sup, con, fail, extra, u, 0)
    ensures Tracked(L, h, sup', con', fail', extra)
  {
    sup', con', fail' := sup, con, fail;
    for v := 0 to L.n
      invariant Tracking(L, h, sup', con', fail', extra, u, v)
    {
      sup', con', fail' := CheckPair(L, h, u, v, sup', con', fail', extra);
    }
    SettleIndex(L, h, sup', con', fail', extra, u);
  }

  /**
   * The body of `for xy of [x, y]` (lattices.js:694-700): unless h(xy) is below
   * h(z) already, lower it to h(xy) ^ h(z), hand the pairs filed under sup[xy]
   * to fail and check the pairs of xy again.
   */
  method LowerToward(L: ValidLattice, h: array<nat>, xy: nat, z: nat, sup: seq<set<nat>>, con: set<nat>, fail: set<nat>,
                     ghost extra: set<nat>, ghost f: seq<nat>)
    returns (sup': seq<set<nat>>, con': set<nat>, fail': set<nat>)
    requires h.Length == L.n && xy < L.n && z < L.n && L.leq[xy][z]
    requires Tracked(L, h[..], sup, con, fail, extra) && Dominates(L, h[..], f)
    modifies h
    ensures Tracked(L, h[..], sup', con', fail', extra) && Le(L, h[..], old(h[..])) && Dominates(L, h[..], f)
    ensures L.leq[h[xy]][h[z]]
    ensures forall t :: 0 <= t < L.n && t != xy ==> h[t] == old(h[t])
    ensures h[..] == old(h[..]) <==> old(L.leq[h[xy]][h[z]])
  {
    ghost var h0 := h[..];
    Strict(L, h[z], h[xy]);
    if !L.geq[h[z]][h[xy]] {
      var val := L.glb[h[xy]][h[z]];
      LubFacts(L, h[xy], h[z]);
      LowerOne(L, h0, xy, val);
      DominatesMeetStep(L, h0, f, xy, z);
      AfterWrite(L, h0, sup, con, fail, extra, xy, val);
      h[xy] := val;
      assert h[..] == h0[xy := val];
      sup', con', fail' := CheckSupports(L, h[..], xy, sup[xy := {}], con, fail + sup[xy], extra);
    } else {
      DominatesSelf(L, h0);
      sup', con', fail' := sup, con, fail;
    }
  }

  /**
   * `for (let xy of [x, y])` (lattices.js:692-701): lower h(x) and h(y) toward
   * h(x v y), which a failing pair makes lower h strictly.
   */
  method LowerPair(L: ValidLattice, h: array<nat>, x: nat, y: nat, sup: seq<set<nat>>, con: set<nat>, fail: set<nat>,
                   ghost extra: set<nat>, ghost f: seq<nat>)
    returns (sup': seq<set<nat>>, con': set<nat>, fail': set<nat>)
    requires h.Length == L.n && x < L.n && y < L.n
    requires Tracked(L, h[..], sup, con, fail, extra) && Dominates(L, h[..], f)
    requires IsFail(L, h[..], x, y)
    modifies h
    ensures Tracked(L, h[..], sup', con', fail', extra) && Le(L, h[..], old(h[..])) && Dominates(L, h[..], f)
    ensures Measure(L, h[..]) < Measure(L, old(h[..]))
    ensures L.leq[h[x]][h[L.lub[x][y]]] && L.leq[h[y]][h[L.lub[x][y]]]
  {
    var z := L.lub[x][y];
    ghost var h0 := h[..];
    sup', con', fail' := LowerToward(L, h, x, z, sup, con, fail, extra, f);
    ghost var h1 := h[..];
    sup', con', fail' := LowerToward(L, h, y, z, sup', con', fail', extra, f);
    PairLowered(L, h0, h1, h[..], x, y);
  }

  /** What the two calls of LowerToward in LowerPair achieve together. */
  lemma PairLowered(L: ValidLattice, h0: seq<nat>, h1: seq<nat>, h2: seq<nat>, x: nat, y: nat)
    requires x < L.n && y < L.n && Endo(L, h0) && Endo(L, h1) && Endo(L, h2)
    requires IsFail(L, h0, x, y)
    requires Le(L, h1, h0) && Le(L, h2, h1)
    requires var z := L.lub[x][y];
      && L.leq[h1[x]][h1[z]] && (forall t :: 0 <= t < L.n && t != x ==> h1[t] == h0[t])
      && (h1 == h0 <==> L.leq[h0[x]][h0[z]])
      && L.leq[h2[y]][h2[z]] && (forall t :: 0 <= t < L.n && t != y ==> h2[t] == h1[t])
      && (h2 == h1 <==> L.leq[h1[y]][h1[z]])
    ensures Le(L, h2, h0) && Measure(L, h2) < Measure(L, h0)
    ensures L.leq[h2[x]][h2[L.lub[x][y]]] && L.leq[h2[y]][h2[L.lub[x][y]]]
  {
    var z := L.lub[x][y];
    LubFacts(L, x, y);
    LubLeastImp(L, h0[x], h0[y], h0[z]);
    Strict(L, h0[z], L.lub[h0[x]][h0[y]]);
    assert L.leq[h1[z]][h1[z]];
    LeTrans(L, h2, h1, h0);
    MeasureDecreases(L, h1, h0);
    MeasureDecreases(L, h2, h1);
  }

  /**
   * A failing pair (x, y) (lattices.js:688-704): after LowerPair,
   * h(x) v h(y) <= h(x v y), so the pair goes to sup or con.
   */
  method RepairFailure(L: ValidLattice, h: array<nat>, x: nat, y: nat, sup: seq<set<nat>>, con: set<nat>, fail: set<nat>,
                       ghost f: seq<nat>)
    returns (sup': seq<set<nat>>, con': set<nat>, fail': set<nat>)
    requires h.Length == L.n && x < L.n && y < L.n
    requires Tracked(L, h[..], sup, con, fail, {Pack(L.n, x, y)}) && Dominates(L, h[..], f)
    requires IsFail(L, h[..], x, y)
    modifies h
    ensures Tracked(L, h[..], sup', con', fail', {}) && Le(L, h[..], old(h[..])) && Dominates(L, h[..], f)
    ensures Measure(L, h[..]) < Measure(L, old(h[..]))
  {
    var p := Pack(L.n, x, y);
    sup', con', fail' := LowerPair(L, h, x, y, sup, con, fail, {p}, f);
    FileRepaired(L, h[..], sup', con', fail', x, y);
    var z := L.lub[x][y];
    if L.lub[h[x]][h[y]] == h[z] {
      sup' := sup'[z := sup'[z] + {p}];
    } else {
      con' := con' + {p};
    }
  }

  /**
   * Once h(x) and h(y) are below h(x v y), the pair (x, y) is filed in sup or
   * con (lattices.js:702-703).
   */
  lemma FileRepaired(L: ValidLattice, h: seq<nat>, sup: seq<set<nat>>, con: set<nat>, fail: set<nat>, x: nat, y: nat)
    requires x < L.n && y < L.n && Tracked(L, h, sup, con, fail, {Pack(L.n, x, y)})
    requires L.leq[h[x]][h[L.lub[x][y]]] && L.leq[h[y]][h[L.lub[x][y]]]
    ensures var z := L.lub[x][y]; var p := Pack(L.n, x, y);
      if L.lub[h[x]][h[y]] == h[z] then Tracked(L, h, sup[z := sup[z] + {p}], con, fail, {})
      else Tracked(L, h, sup, con + {p}, fail, {})
  {
    var z := L.lub[x][y];
    var p := Pack(L.n, x, y);
    LubFacts(L, x, y);
    LubLeast(L, h[x], h[y], h[z]);
    Strict(L, h[z], L.lub[h[x]][h[y]]);
    if L.lub[h[x]][h[y]] == h[z] {
      FileConsistent(L, h, sup, con, fail, {p}, 0, L.n, x, y);
      assert {p} - {p} == {};
    } else {
      DecideAddKeeps(L, h, sup, con, fail, {p}, {}, 0, L.n, x, y);
    }
  }

  /** The popped pair p of a work set s is handed to extra. */
  lemma TakeOut(L: ValidLattice, h: seq<nat>, sup: seq<set<nat>>, con: set<nat>, fail: set<nat>, p: nat)
    requires Tracked(L, h, sup, con, fail, {}) && p in fail
    ensures |fail - {p}| < |fail| && Packed(L.n, p)
    ensures var (x, y) := Unpack(L.n, p);
      x < L.n && y < L.n && Tracked(L, h, sup, con, fail - {p}, {Pack(L.n, x, y)})
  {
    PackUnpack(L.n, p);
    assert con + (fail - {p}) + {p} == con + fail + {};
    assert fail == (fail - {p}) + {p};
  }

  lemma TakeOutCon(L: ValidLattice, h: seq<nat>, sup: seq<set<nat>>, con: set<nat>, p: nat)
    requires Tracked(L, h, sup, con, {}, {}) && p in con
    ensures |con - {p}| < |con| && Packed(L.n, p)
    ensures var (u, v) := Unpack(L.n, p);
      && u < L.n && v < L.n && L.lub[u][v] != u && L.lub[u][v] != v
      && Tracked(L, h, sup, con - {p}, {}, {Pack(L.n, u, v)})
  {
    PackUnpack(L.n, p);
    assert (con - {p}) + {} + {p} == con + {} + {};
    assert con == (con - {p}) + {p};
  }

  /** A popped failing pair that no longer fails is filed in sup or con (lattices.js:691). */
  lemma Refile(L: ValidLattice, h: seq<nat>, sup: seq<set<nat>>, con: set<nat>, fail: set<nat>, x: nat, y: nat)
    requires x < L.n && y < L.n && Tracked(L, h, sup, con, fail, {Pack(L.n, x, y)})
    requires L.geq[h[L.lub[x][y]]][L.lub[h[x]][h[y]]]
    ensures var r := DecideAdd(L, h, sup, con, fail, x, y); Tracked(L, h, r.0, r.1, r.2, {}) && r.2 == fail
  {
    LubFacts(L, x, y);
    Strict(L, h[L.lub[x][y]], L.lub[h[x]][h[y]]);
    DecideAddKeeps(L, h, sup, con, fail, {Pack(L.n, x, y)}, {}, 0, L.n, x, y);
  }

  /** One round of `while (fail.size > 0)` (lattices.js:686-704). */
  method FailStep(L: ValidLattice, h: array<nat>, sup: seq<set<nat>>, con: set<nat>, fail: set<nat>, ghost f: seq<nat>)
    returns (sup': seq<set<nat>>, con': set<nat>, fail': set<nat>)
    requires h.Length == L.n && Tracked(L, h[..], sup, con, fail, {}) && fail != {} && Dominates(L, h[..], f)
    modifies h
    ensures Tracked(L, h[..], sup', con', fail', {}) && Le(L, h[..], old(h[..])) && Dominates(L, h[..], f)
    ensures h[..] == old(h[..]) ==> |fail'| < |fail|
    ensures h[..] != old(h[..]) ==> Measure(L, h[..]) < Measure(L, old(h[..]))
  {
    var k, rest := SetPop(fail);
    var p := k.value;
    TakeOut(L, h[..], sup, con, fail, p);
    var (x, y) := Unpack(L.n, p);
    if !IsFail(L, h[..], x, y) {
      Refile(L, h[..], sup, con, rest, x, y);
      DominatesSelf(L, h[..]);
      var r := DecideAdd(L, h[..], sup, con, rest, x, y);
      sup', con', fail' := r.0, r.1, r.2;
    } else {
      sup', con', fail' := RepairFailure(L, h, x, y, sup, con, rest, f);
    }
  }

  /** For monotone h, a popped pair that is no longer in conflict is filed in sup (lattices.js:677). */
  lemma Requeue(L: ValidLattice, h: seq<nat>, sup: seq<set<nat>>, con: set<nat>, u: nat, v: nat)
    requires u < L.n && v < L.n && Tracked(L, h, sup, con, {}, {Pack(L.n, u, v)}) && Monotone(L, h)
    requires !IsCon(L, h, u, v)
    ensures var r := DecideAdd(L, h, sup, con, {}, u, v); Tracked(L, h, r.0, r.1, r.2, {}) && r.1 == con && r.2 == {}
  {
    MonotoneDecide(L, h, u, v);
    DecideAddKeeps(L, h, sup, con, {}, {Pack(L.n, u, v)}, {}, 0, L.n, u, v);
  }

  /**
   * The write h(u v v) := h(u) v h(v) of a conflicting pair (lattices.js:680-684)
   * lowers h strictly, keeps every join-preserving map below f under it, and
   * leaves the bookkeeping for checkSupports(u v v), with (u, v) now supported.
   */
  lemma WriteJoin(L: ValidLattice, h: seq<nat>, sup: seq<set<nat>>, con: set<nat>, u: nat, v: nat, f: seq<nat>)
    requires u < L.n && v < L.n && Tracked(L, h, sup, con, {}, {Pack(L.n, u, v)}) && Dominates(L, h, f)
    requires L.lub[u][v] != u && L.lub[u][v] != v && IsCon(L, h, u, v)
    ensures var w := L.lub[u][v]; var h' := h[w := L.lub[h[u]][h[v]]];
      && Tracking(L, h', sup[w := {Pack(L.n, u, v)}], con, sup[w], {}, w, 0)
      && Le(L, h', h) && h' != h && Dominates(L, h', f)
  {
    var w := L.lub[u][v];
    var c := L.lub[h[u]][h[v]];
    var p := Pack(L.n, u, v);
    LubFacts(L, h[u], h[v]);
    Strict(L, h[w], c);
    LowerOne(L, h, w, c);
    DominatesJoinStep(L, h, f, u, v, c);
    AfterWrite(L, h, sup, con, {}, {p}, w, c);
    var h' := h[w := c];
    FileConsistent(L, h', sup[w := {}], con, {} + sup[w], {p}, w, 0, u, v);
    assert sup[w := {}][w] + {p} == {p};
    assert sup[w := {}][w := {p}] == sup[w := {p}];
    assert {} + sup[w] == sup[w];
    assert {p} - {p} == {};
  }

  /** `while (fail.size > 0)` (lattices.js:686-705): run until fail is empty. */
  method FailLoop(L: ValidLattice, h: array<nat>, sup: seq<set<nat>>, con: set<nat>, fail: set<nat>, ghost f: seq<nat>)
    returns (sup': seq<set<nat>>, con': set<nat>)
    requires h.Length == L.n && Tracked(L, h[..], sup, con, fail, {}) && Dominates(L, h[..], f)
    modifies h
    ensures Tracked(L, h[..], sup', con', {}, {}) && Le(L, h[..], old(h[..])) && Dominates(L, h[..], f)
  {
    sup', con' := sup, con;
    var fail' := fail;
    ghost var h0 := h[..];
    DominatesSelf(L, h0);
    while fail' != {}
      invariant Tracked(L, h[..], sup', con', fail', {}) && Le(L, h[..], h0) && Dominates(L, h[..], f)
      decreases Measure(L, h[..]), |fail'|
    {
      ghost var hs := h[..];
      sup', con', fail' := FailStep(L, h, sup', con', fail', f);
      LeTrans(L, h[..], hs, h0);
    }
  }

  /**
   * A conflicting pair (u, v) (lattices.js:677-685): lower h(u v v) to
   * h(u) v h(v), hand sup[u v v] to fail, file (u, v) as supported, check the
   * pairs of u v v again and run the fail loop.
   */
  method LowerJoin(L: ValidLattice, h: array<nat>, u: nat, v: nat, sup: seq<set<nat>>, con: set<nat>, ghost f: seq<nat>)
    returns (sup': seq<set<nat>>, con': set<nat>)
    requires h.Length == L.n && u < L.n && v < L.n
    requires Tracked(L, h[..], sup, con, {}, {Pack(L.n, u, v)}) && Dominates(L, h[..], f)
    requires L.lub[u][v] != u && L.lub[u][v] != v && IsCon(L, h[..], u, v)
    modifies h
    ensures Tracked(L, h[..], sup', con', {}, {}) && Le(L, h[..], old(h[..])) && Dominates(L, h[..], f)
    ensures Measure(L, h[..]) < Measure(L, old(h[..]))
  {
    var w := L.lub[u][v];
    var c := L.lub[h[u]][h[v]];
    ghost var h0 := h[..];
    WriteJoin(L, h0, sup, con, u, v, f);
    h[w] := c;
    assert h[..] == h0[w := c];
    var fail := sup[w];
    sup' := sup[w := {Pack(L.n, u, v)}];
    sup', con', fail := CheckSupports(L, h[..], w, sup', con, fail, {});
    ghost var h1 := h[..];
    sup', con' := FailLoop(L, h, sup', con', fail, f);
    LeTrans(L, h[..], h1, h0);
    MeasureDecreases(L, h1, h0);
    MeasureDecreases(L, h[..], h1);
  }

  /** One round of `while (con.size)` (lattices.js:672-705). */
  method ConStep(L: ValidLattice, h: array<nat>, sup: seq<set<nat>>, con: set<nat>, ghost f: seq<nat>)
    returns (sup': seq<set<nat>>, con': set<nat>)
    requires h.Length == L.n && Tracked(L, h[..], sup, con, {}, {}) && con != {} && Dominates(L, h[..], f)
    modifies h
    ensures Tracked(L, h[..], sup', con', {}, {}) && Le(L, h[..], old(h[..])) && Dominates(L, h[..], f)
    ensures h[..] == old(h[..]) ==> |con'| < |con|
    ensures h[..] != old(h[..]) ==> Measure(L, h[..]) < Measure(L, old(h[..]))
  {
    var k, rest := SetPop(con);
    var p := k.value;
    SettledMonotone(L, h[..], sup, con);
    TakeOutCon(L, h[..], sup, con, p);
    var (u, v) := Unpack(L.n, p);
    if !IsCon(L, h[..], u, v) {
      Requeue(L, h[..], sup, rest, u, v);
      DominatesSelf(L, h[..]);
      var r := DecideAdd(L, h[..], sup, rest, {}, u, v);
      sup', con' := r.0, r.1;
    } else {
      sup', con' := LowerJoin(L, h, u, v, sup, rest, f);
    }
  }

  /** The start of GMeetPlus (lattices.js:645-670): empty tables, then decideAdd on every incomparable pair. */
  method Seed(L: ValidLattice, h: seq<nat>) returns (sup: seq<set<nat>>, con: set<nat>, fail: set<nat>)
    requires Endo(L, h) && Monotone(L, h)
    ensures Tracked(L, h, sup, con, fail, {}) && fail == {}
  {
    sup := seq(L.n, _ => {});
    con := {};
    fail := {};
    SeedStart(L, h);
    for i := 0 to |L.uncomparables|
      invariant fail == {} && Tracked(L, h, sup, con, fail, Rest(L, i))
    {
      var (a, b) := L.uncomparables[i];
      assert L.uncomparables[i] in L.uncomparables;
      Uncomparable(L, a, b);
      MonotoneDecide(L, h, a, b);
      RestStep(L, i);
      DecideAddKeeps(L, h, sup, con, fail, Rest(L, i), Rest(L, i + 1), 0, L.n, a, b);
      var r := DecideAdd(L, h, sup, con, fail, a, b);
      sup, con, fail := r.0, r.1, r.2;
    }
    assert Rest(L, |L.uncomparables|) == {};
  }

  /**
   * GMeetPlus (lattices.js:637-708): the greatest join-preserving map below the
   * pointwise meet of f and g.
   */
  method GMeetPlus(L: ValidLattice, f: seq<nat>, g: Option<seq<nat>>) returns (r: seq<nat>)
    requires Endo(L, f) && (g.Some? ==> Endo(L, g.value))
    ensures IsGreatestJoinBelow(L, r, Start(L, f, g))
  {
    var h := StartCopy(L, f, g);
    ghost var h0 := h[..];
    StartIsMeet(L, f, g, f);
    DominatesSelf(L, h0);
    var _ := MonoMaxBelow(L, h);
    MonoDominatesJoin(L, h[..], h0);
    var sup, con, fail := Seed(L, h[..]);
    while con != {}
      invariant Tracked(L, h[..], sup, con, {}, {}) && Le(L, h[..], h0) && Dominates(L, h[..], h0)
      decreases Measure(L, h[..]), |con|
    {
      ghost var hs := h[..];
      sup, con := ConStep(L, h, sup, con, h0);
      LeTrans(L, h[..], hs, h0);
    }
    SettledJoin(L, h[..], sup);
    r := h[..];
  }
}
