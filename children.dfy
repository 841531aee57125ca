/**
 * The utilsChildren namespace of lattices.js: operations on a relation given as
 * lists, where children[b] lists the elements directly below b. Its parents,
 * its boolean matrix, a depth-first topological order, and the order it
 * generates (its reflexive and transitive closure).
 */
module UtilsChildren {
  import opened Utils
  import opened Lattices

  // ---------------------------------------------------------------------
  // Inverting the relation (lattices.js:137-153).

  /** lattices.js:137-144: isChild[a][b] is set exactly for the a listed in children[b]. */
  method Children2IsChild(children: seq<seq<nat>>) returns (isChild: seq<seq<bool>>)
    requires Entries(children, |children|)
    ensures Square(isChild, |children|)
    ensures forall a, b :: 0 <= a < |children| && 0 <= b < |children| ==> (isChild[a][b] <==> a in children[b])
  {
    var n := |children|;
    isChild := seq(n, _ => seq(n, _ => false));
    for b := 0 to n
      invariant Square(isChild, n)
      invariant forall a, c :: 0 <= a < n && 0 <= c < n ==> (isChild[a][c] <==> c < b && a in children[c])
    {
      for k := 0 to |children[b]|
        invariant Square(isChild, n)
        invariant forall a, c :: 0 <= a < n && 0 <= c < n ==>
          (isChild[a][c] <==> (c < b && a in children[c]) || (c == b && a in children[b][..k]))
      {
        var a := children[b][k];
        assert children[b][..k + 1] == children[b][..k] + [a];
        isChild := isChild[a := isChild[a][b := true]];
      }
      assert children[b][..|children[b]|] == children[b];
    }
  }

  /** The lists of ps are in non-decreasing order. */
  ghost predicate SortedLists(ps: seq<seq<nat>>) {
    forall y, i, j :: 0 <= y < |ps| && 0 <= i < j < |ps[y]| ==> ps[y][i] <= ps[y][j]
  }

  /**
   * lattices.js:146-153: parents[y] lists x exactly when children[x] lists y,
   * in increasing order of x.
   */
  method Children2Parents(children: seq<seq<nat>>) returns (parents: seq<seq<nat>>)
    requires Entries(children, |children|)
    ensures |parents| == |children| && Entries(parents, |children|) && SortedLists(parents)
    ensures forall x, y :: 0 <= x < |children| && 0 <= y < |children| ==> (x in parents[y] <==> y in children[x])
  {
    var n := |children|;
    parents := seq(n, _ => []);
    for a := 0 to n
      invariant |parents| == n && SortedLists(parents)
      invariant forall y, i :: 0 <= y < n && 0 <= i < |parents[y]| ==> parents[y][i] < a
      invariant forall x, y :: 0 <= x < n && 0 <= y < n ==> (x in parents[y] <==> x < a && y in children[x])
    {
      for k := 0 to |children[a]|
        invariant |parents| == n && SortedLists(parents)
        invariant forall y, i :: 0 <= y < n && 0 <= i < |parents[y]| ==> parents[y][i] <= a
        invariant forall x, y :: 0 <= x < n && 0 <= y < n ==>
          (x in parents[y] <==> (x < a && y in children[x]) || (x == a && y in children[a][..k]))
      {
        var b := children[a][k];
        assert children[a][..k + 1] == children[a][..k] + [b];
        parents := parents[b := parents[b] + [a]];
      }
      assert children[a][..|children[a]|] == children[a];
    }
  }

  // ---------------------------------------------------------------------
  // Depth-first topological order (lattices.js:221-233).

  /**
   * rank strictly decreases from each element to the elements it requires,
   * self-requirements aside: the relation has no cycle other than self-loops.
   */
  ghost predicate Ranked(req: seq<seq<nat>>, rank: seq<nat>) {
    && |rank| == |req|
    && Entries(req, |req|)
    && forall x, j :: 0 <= x < |req| && 0 <= j < |req[x]| && req[x][j] != x ==> rank[req[x][j]] < rank[x]
  }

  ghost predicate Acyclic(req: seq<seq<nat>>) {
    exists rank :: Ranked(req, rank)
  }

  /** Every listed element comes after everything else it requires. */
  ghost predicate ReqFirst(req: seq<seq<nat>>, topo: seq<nat>) {
    forall k, j :: 0 <= k < |topo| && topo[k] < |req| && 0 <= j < |req[topo[k]]| && req[topo[k]][j] != topo[k] ==>
      req[topo[k]][j] in topo[..k]
  }

  /** The number of elements not seen yet. */
  function Unseen(seen: seq<bool>): nat {
    if seen == [] then 0 else Unseen(seen[..|seen| - 1]) + (if seen[|seen| - 1] then 0 else 1)
  }

  lemma {:induction false} UnseenMark(seen: seq<bool>, x: nat)
    requires x < |seen| && !seen[x]
    ensures Unseen(seen[x := true]) + 1 == Unseen(seen)
  {
    var s := seen[x := true];
    if x < |seen| - 1 {
      assert s[..|s| - 1] == seen[..|seen| - 1][x := true];
      UnseenMark(seen[..|seen| - 1], x);
    } else {
      assert s[..|s| - 1] == seen[..|seen| - 1];
    }
  }

  lemma {:induction false} UnseenNoneLeft(seen: seq<bool>)
    requires forall v :: 0 <= v < |seen| ==> seen[v]
    ensures Unseen(seen) == 0
  {
    if seen != [] {
      assert forall v :: 0 <= v < |seen| - 1 ==> seen[..|seen| - 1][v] == seen[v];
      UnseenNoneLeft(seen[..|seen| - 1]);
    }
  }

  /** The state shared by the nested calls of dfs: topo lists distinct seen elements. */
  ghost predicate SearchState(n: nat, seen: seq<bool>, topo: seq<nat>) {
    && |seen| == n
    && NoDup(topo)
    && (forall k :: 0 <= k < |topo| ==> topo[k] < n && seen[topo[k]])
  }

  /** Elements seen but not finished are on the call stack and ranked above x. */
  ghost predicate StackAbove(seen: seq<bool>, topo: seq<nat>, rank: seq<nat>, x: nat)
    requires |rank| == |seen| && x < |rank|
  {
    forall v :: 0 <= v < |seen| && seen[v] && v !in topo ==> rank[v] > rank[x]
  }

  /** lattices.js:226-230: the inner dfs. */
  method Dfs(req: seq<seq<nat>>, x: nat, seen: seq<bool>, topo: seq<nat>, ghost acyclic: bool, ghost rank: seq<nat>)
    returns (seen': seq<bool>, topo': seq<nat>)
    requires Entries(req, |req|) && x < |req| && SearchState(|req|, seen, topo) && !seen[x]
    requires acyclic ==> Ranked(req, rank) && StackAbove(seen, topo, rank, x) && ReqFirst(req, topo)
    ensures SearchState(|req|, seen', topo') && seen'[x] && x in topo'
    ensures |topo| <= |topo'| && topo'[..|topo|] == topo
    ensures |topo'| + Unseen(seen') == |topo| + Unseen(seen)
    ensures forall v :: 0 <= v < |req| && seen[v] ==> seen'[v]
    ensures forall v :: 0 <= v < |req| && seen'[v] && !seen[v] ==> v in topo'
    ensures forall k :: |topo| <= k < |topo'| ==> !seen[topo'[k]]
    ensures acyclic ==> ReqFirst(req, topo')
    decreases Unseen(seen)
  {
    var n := |req|;
    UnseenMark(seen, x);
    seen' := seen[x := true];
    topo' := topo;
    for j := 0 to |req[x]|
      invariant SearchState(n, seen', topo') && seen'[x] && x !in topo'
      invariant |topo| <= |topo'| && topo'[..|topo|] == topo
      invariant |topo'| + Unseen(seen') + 1 == |topo| + Unseen(seen)
      invariant forall v :: 0 <= v < n && seen[v] ==> seen'[v]
      invariant forall v :: 0 <= v < n && seen'[v] && !seen[v] && v != x ==> v in topo'
      invariant forall v :: 0 <= v < n && seen'[v] && v !in topo' ==> v == x || (seen[v] && v !in topo)
      invariant acyclic ==> ReqFirst(req, topo')
      invariant forall k :: |topo| <= k < |topo'| ==> !seen[topo'[k]]
      invariant acyclic ==> forall i :: 0 <= i < j && req[x][i] != x ==> req[x][i] in topo'
    {
      var y := req[x][j];
      if !seen'[y] {
        if acyclic {
          forall v | 0 <= v < n && seen'[v] && v !in topo' ensures rank[v] > rank[y] {
            if v != x {
              assert v !in topo && seen[v];
            }
          }
        }
        var seen2, topo2 := Dfs(req, y, seen', topo', acyclic, rank);
        forall v | v in topo' ensures v in topo2 {
          var k :| 0 <= k < |topo'| && topo'[k] == v;
          assert topo2[k] == v;
        }
        assert topo2[..|topo|] == topo2[..|topo'|][..|topo|];
        forall k | 0 <= k < |topo2| ensures topo2[k] != x {
          if k < |topo'| {
            assert topo2[k] == topo'[k];
          }
        }
        seen', topo' := seen2, topo2;
      } else if acyclic && y != x && y !in topo' {
        assert false;
      }
    }
    if acyclic {
      PushFinished(req, topo', x);
    }
    PushPrefix(topo, topo', x);
    topo' := topo' + [x];
  }

  lemma PushPrefix(topo: seq<nat>, topo': seq<nat>, x: nat)
    requires |topo| <= |topo'| && topo'[..|topo|] == topo
    ensures (topo' + [x])[..|topo|] == topo && x in topo' + [x]
    ensures forall v :: v in topo' ==> v in topo' + [x]
  {
    assert (topo' + [x])[..|topo|] == topo'[..|topo|];
    assert (topo' + [x])[|topo'|] == x;
  }

  /** Appending x once everything it requires is listed keeps requirements first. */
  lemma PushFinished(req: seq<seq<nat>>, topo: seq<nat>, x: nat)
    requires ReqFirst(req, topo) && x < |req|
    requires forall i :: 0 <= i < |req[x]| && req[x][i] != x ==> req[x][i] in topo
    ensures ReqFirst(req, topo + [x])
  {
    var t := topo + [x];
    forall k, j | 0 <= k < |t| && t[k] < |req| && 0 <= j < |req[t[k]]| && req[t[k]][j] != t[k]
      ensures req[t[k]][j] in t[..k]
    {
      if k < |topo| {
        assert t[..k] == topo[..k];
        assert t[k] == topo[k];
      } else {
        assert t[..k] == topo;
      }
    }
  }

  /**
   * lattices.js:221-233: every element is listed once, and when the relation has
   * no cycle (self-loops aside) everything an element requires is listed before it.
   */
  method TopoDfs(req: seq<seq<nat>>) returns (topo: seq<nat>)
    requires Entries(req, |req|)
    ensures Perm(topo, |req|)
    ensures Acyclic(req) ==> ReqFirst(req, topo)
  {
    var n := |req|;
    ghost var acyclic := Acyclic(req);
    ghost var rank: seq<nat> := seq(n, _ => 0);
    if acyclic {
      rank :| Ranked(req, rank);
    }
    var seen := seq(n, _ => false);
    assert Unseen(seen) == n by {
      UnseenAllFalse(n);
    }
    topo := [];
    for x := 0 to n
      invariant SearchState(n, seen, topo)
      invariant |topo| + Unseen(seen) == n
      invariant forall v :: 0 <= v < x ==> seen[v]
      invariant forall v :: 0 <= v < n && seen[v] ==> v in topo
      invariant acyclic ==> ReqFirst(req, topo)
    {
      if !seen[x] {
        var seen', topo' := Dfs(req, x, seen, topo, acyclic, rank);
        forall v | v in topo ensures v in topo' {
          var k :| 0 <= k < |topo| && topo[k] == v;
          assert topo'[k] == v;
        }
        seen, topo := seen', topo';
      }
    }
    UnseenNoneLeft(seen);
    forall i, j | 0 <= i < |topo| && 0 <= j < |topo| ensures Apart(topo, i, j) {
      if i < j {
        assert topo[i] != topo[j];
      } else if j < i {
        assert topo[j] != topo[i];
      }
    }
    forall v | 0 <= v < n ensures Listed(topo, v) {
      assert seen[v];
    }
  }

  lemma {:induction false} UnseenAllFalse(n: nat)
    ensures Unseen(seq(n, _ => false)) == n
  {
    if n > 0 {
      assert seq(n, _ => false)[..n - 1] == seq(n - 1, _ => false);
      UnseenAllFalse(n - 1);
    }
  }

  // ---------------------------------------------------------------------
  // Both topological orders (lattices.js:214-219).

  /** An upper bound of the ranks. */
  function MaxRank(rank: seq<nat>): (r: nat)
    ensures forall i :: 0 <= i < |rank| ==> rank[i] <= r
  {
    if rank == [] then 0
    else
      var r := MaxRank(rank[..|rank| - 1]);
      assert forall i :: 0 <= i < |rank| - 1 ==> rank[..|rank| - 1][i] == rank[i];
      if rank[|rank| - 1] > r then rank[|rank| - 1] else r
  }

  /** The inverse of a relation without cycles has none either: its ranks turned round. */
  lemma InverseAcyclic(children: seq<seq<nat>>, parents: seq<seq<nat>>)
    requires Acyclic(children) && |parents| == |children| && Entries(parents, |children|)
    requires forall x, y :: 0 <= x < |children| && 0 <= y < |children| ==> (x in parents[y] <==> y in children[x])
    ensures Acyclic(parents)
  {
    var rank :| Ranked(children, rank);
    var top := MaxRank(rank);
    var rank': seq<nat> := seq(|rank|, (v: int) requires 0 <= v < |rank| => top - rank[v]);
    forall y, j | 0 <= y < |parents| && 0 <= j < |parents[y]| && parents[y][j] != y
      ensures rank'[parents[y][j]] < rank'[y]
    {
      var x := parents[y][j];
      assert x in parents[y];
      var k :| 0 <= k < |children[x]| && children[x][k] == y;
    }
    assert Ranked(parents, rank');
  }

  /** lattices.js:214-219: the order of children first, the parents, and the order of parents first. */
  method Children2Topo(children: seq<seq<nat>>) returns (topoDownUp: seq<nat>, topoUpDown: seq<nat>, parents: seq<seq<nat>>)
    requires Entries(children, |children|)
    ensures |parents| == |children| && Entries(parents, |children|) && SortedLists(parents)
    ensures forall x, y :: 0 <= x < |children| && 0 <= y < |children| ==> (x in parents[y] <==> y in children[x])
    ensures Perm(topoDownUp, |children|) && Perm(topoUpDown, |children|)
    ensures Acyclic(children) ==> ReqFirst(children, topoDownUp) && ReqFirst(parents, topoUpDown)
  {
    topoDownUp := TopoDfs(children);
    parents := Children2Parents(children);
    topoUpDown := TopoDfs(parents);
    if Acyclic(children) {
      InverseAcyclic(children, parents);
    }
  }

  // ---------------------------------------------------------------------
  // The generated order (lattices.js:195-211).

  /**
   * x <= y follows from the listed pairs: x is y, or x <= c for some c other
   * than y that children[y] lists and that belongs to done.
   */
  ghost predicate DerivedAt(children: seq<seq<nat>>, leq: seq<seq<bool>>, done: seq<nat>, x: nat, y: nat)
    requires Square(leq, |children|) && x < |children| && y < |children|
  {
    leq[x][y] <==> x == y || exists c :: c in children[y] && c in done && c != y && c < |children| && leq[x][c]
  }

  /** x <= y exactly when x is y or x <= c for some c other than y that children[y] lists. */
  ghost predicate ClosedAt(children: seq<seq<nat>>, leq: seq<seq<bool>>, x: nat, y: nat)
    requires Square(leq, |children|) && x < |children| && y < |children|
  {
    leq[x][y] <==> x == y || exists c :: c in children[y] && c != y && c < |children| && leq[x][c]
  }

  /** leq is the reflexive and transitive closure of the relation. */
  ghost predicate Closure(children: seq<seq<nat>>, leq: seq<seq<bool>>) {
    && Square(leq, |children|)
    && forall x, y :: 0 <= x < |children| && 0 <= y < |children| ==> ClosedAt(children, leq, x, y)
  }

  /** lattices.js:203: column b takes in column a. */
  method OrColumn(leq: seq<seq<bool>>, n: nat, a: nat, b: nat) returns (leq': seq<seq<bool>>)
    requires Square(leq, n) && a < n && b < n
    ensures Square(leq', n)
    ensures forall x, y {:trigger leq'[x][y]} :: 0 <= x < n && 0 <= y < n ==> leq'[x][y] == (leq[x][y] || (y == b && leq[x][a]))
  {
    leq' := leq;
    for x := 0 to n
      invariant Square(leq', n)
      invariant forall z, y {:trigger leq'[z][y]} :: 0 <= z < n && 0 <= y < n ==> leq'[z][y] == (leq[z][y] || (y == b && z < x && leq[z][a]))
    {
      leq' := leq'[x := leq'[x][b := leq'[x][b] || leq'[x][a]]];
    }
  }

  /** lattices.js:202-204: every parent of a takes in column a. */
  method Propagate(leq: seq<seq<bool>>, n: nat, a: nat, ps: seq<nat>) returns (leq': seq<seq<bool>>)
    requires Square(leq, n) && a < n && forall j :: 0 <= j < |ps| ==> ps[j] < n
    ensures Square(leq', n)
    ensures forall x, y {:trigger leq'[x][y]} :: 0 <= x < n && 0 <= y < n ==> leq'[x][y] == (leq[x][y] || (y in ps && leq[x][a]))
  {
    leq' := leq;
    for j := 0 to |ps|
      invariant Square(leq', n)
      invariant forall x, y {:trigger leq'[x][y]} :: 0 <= x < n && 0 <= y < n ==> leq'[x][y] == (leq[x][y] || (y in ps[..j] && leq[x][a]))
    {
      assert ps[..j + 1] == ps[..j] + [ps[j]];
      assert forall x :: 0 <= x < n ==> leq'[x][a] == leq[x][a];
      leq' := OrColumn(leq', n, a, ps[j]);
    }
    assert ps[..|ps|] == ps;
  }

  /** Propagating the next element of a requirements-first order keeps every entry derived. */
  lemma PropagateStep(children: seq<seq<nat>>, parents: seq<seq<nat>>, topo: seq<nat>, i: nat,
                      leq: seq<seq<bool>>, leq': seq<seq<bool>>)
    requires Entries(children, |children|) && |parents| == |children| && Square(leq, |children|) && Square(leq', |children|)
    requires forall x, y :: 0 <= x < |children| && 0 <= y < |children| ==> (x in parents[y] <==> y in children[x])
    requires Perm(topo, |children|) && ReqFirst(children, topo) && i < |topo|
    requires forall x :: 0 <= x < |children| ==> leq[x][x]
    requires forall x, y :: 0 <= x < |children| && 0 <= y < |children| ==> DerivedAt(children, leq, topo[..i], x, y)
    requires forall x, y {:trigger leq'[x][y]} :: 0 <= x < |children| && 0 <= y < |children| ==>
      leq'[x][y] == (leq[x][y] || (y in parents[topo[i]] && leq[x][topo[i]]))
    ensures forall x, y :: 0 <= x < |children| && 0 <= y < |children| ==> DerivedAt(children, leq', topo[..i] + [topo[i]], x, y)
  {
    var n := |children|;
    var a := topo[i];
    var done := topo[..i];
    var done' := done + [a];
    // The columns already done do not change.
    forall x, c | 0 <= x < n && 0 <= c < n && c in done' ensures leq'[x][c] == leq[x][c] {
      if c != a {
        assert c in done;
        var k :| 0 <= k < i && done[k] == c;
        if c in parents[a] {
          NotRequiredLater(children, parents, topo, k, i);
        }
      }
    }
    forall x, y | 0 <= x < n && 0 <= y < n ensures DerivedAt(children, leq', done', x, y) {
      if leq'[x][y] && x != y {
        if leq[x][y] {
          assert DerivedAt(children, leq, done, x, y);
          var c :| c in children[y] && c in done && c != y && c < n && leq[x][c];
          assert c in done';
        } else {
          assert y in parents[a] && leq[x][a];
          assert a in children[y] && a in done';
          if a == y {
            assert false;
          }
        }
      }
      if exists c :: c in children[y] && c in done' && c != y && c < n && leq'[x][c] {
        var c :| c in children[y] && c in done' && c != y && c < n && leq'[x][c];
        if c in done {
          assert DerivedAt(children, leq, done, x, y);
        } else {
          assert c == a;
        }
      }
    }
  }

  /** In a requirements-first order, nothing listed later is required by an earlier element. */
  lemma NotRequiredLater(children: seq<seq<nat>>, parents: seq<seq<nat>>, topo: seq<nat>, k: nat, i: nat)
    requires Entries(children, |children|) && |parents| == |children|
    requires forall x, y :: 0 <= x < |children| && 0 <= y < |children| ==> (x in parents[y] <==> y in children[x])
    requires Perm(topo, |children|) && ReqFirst(children, topo) && k < i < |topo|
    ensures topo[k] !in parents[topo[i]]
  {
    var n := |children|;
    var c, a := topo[k], topo[i];
    if c in parents[a] {
      assert a in children[c];
      var j :| 0 <= j < |children[c]| && children[c][j] == a;
      PermApart(topo, n, k, i);
      assert a in topo[..k];
      var k' :| 0 <= k' < k && topo[..k][k'] == a;
      PermApart(topo, n, k', i);
    }
  }

  /** lattices.js:206: no element listed later is below one listed earlier. */
  method NoneBelowEarlier(leq: seq<seq<bool>>, topo: seq<nat>) returns (ok: bool)
    requires Square(leq, |topo|) && forall i :: 0 <= i < |topo| ==> topo[i] < |topo|
    ensures ok <==> forall i, j :: 0 <= i < j < |topo| ==> !leq[topo[j]][topo[i]]
  {
    var n := |topo|;
    for i := 0 to n
      invariant forall i', j :: 0 <= i' < i && i' < j < n ==> !leq[topo[j]][topo[i']]
    {
      for j := i + 1 to n
        invariant forall i', j' :: 0 <= i' < i && i' < j' < n ==> !leq[topo[j']][topo[i']]
        invariant forall j' :: i < j' < j ==> !leq[topo[j']][topo[i]]
      {
        if leq[topo[j]][topo[i]] {
          return false;
        }
      }
    }
    return true;
  }

  /** The position of v in a permutation. */
  ghost function PosOf(t: seq<nat>, n: nat, v: nat): (i: nat)
    requires Perm(t, n) && v < n
    ensures i < |t| && t[i] == v
  {
    assert Listed(t, v);
    var i :| 0 <= i < |t| && t[i] == v; i
  }

  /** If the check passes, positions in the order rank the relation. */
  lemma CheckedAcyclic(children: seq<seq<nat>>, parents: seq<seq<nat>>, topo: seq<nat>, leq: seq<seq<bool>>)
    requires Entries(children, |children|) && |parents| == |children| && Square(leq, |children|)
    requires forall x, y :: 0 <= x < |children| && 0 <= y < |children| ==> (x in parents[y] <==> y in children[x])
    requires Perm(topo, |children|)
    requires forall k, y :: 0 <= k < |topo| && 0 <= y < |children| && y in parents[topo[k]] ==> leq[topo[k]][y]
    requires forall i, j :: 0 <= i < j < |topo| ==> !leq[topo[j]][topo[i]]
    ensures Acyclic(children)
  {
    var n := |children|;
    var pos: seq<nat> := seq(n, (v: int) requires 0 <= v < n => PosOf(topo, n, v));
    forall x, j | 0 <= x < n && 0 <= j < |children[x]| && children[x][j] != x
      ensures pos[children[x][j]] < pos[x]
    {
      var y := children[x][j];
      assert x in parents[y];
      assert leq[topo[pos[y]]][x];
    }
    assert Ranked(children, pos);
  }

  lemma PosOfAt(t: seq<nat>, n: nat, k: nat)
    requires Perm(t, n) && k < |t|
    ensures PosOf(t, n, t[k]) == k
  {
    if PosOf(t, n, t[k]) != k {
      PermApart(t, n, PosOf(t, n, t[k]), k);
    }
  }

  /** With a requirements-first order, the check of lattices.js:206 passes. */
  lemma OrderedPasses(children: seq<seq<nat>>, topo: seq<nat>, leq: seq<seq<bool>>)
    requires Entries(children, |children|) && Square(leq, |children|)
    requires Perm(topo, |children|) && ReqFirst(children, topo)
    requires forall x, y :: 0 <= x < |children| && 0 <= y < |children| ==> DerivedAt(children, leq, topo, x, y)
    ensures forall i, j :: 0 <= i < j < |topo| ==> !leq[topo[j]][topo[i]]
  {
    var n := |children|;
    forall i, j | 0 <= i < j < n ensures !leq[topo[j]][topo[i]] {
      if leq[topo[j]][topo[i]] {
        DerivedPos(children, topo, leq, topo[j], topo[i]);
        PosOfAt(topo, n, i);
        PosOfAt(topo, n, j);
      }
    }
  }

  /** Once every element is done, the derived table is the closure. */
  lemma DerivedClosure(children: seq<seq<nat>>, topo: seq<nat>, leq: seq<seq<bool>>)
    requires Entries(children, |children|) && Square(leq, |children|) && Perm(topo, |children|)
    requires forall x, y :: 0 <= x < |children| && 0 <= y < |children| ==> DerivedAt(children, leq, topo, x, y)
    ensures Closure(children, leq)
  {
    var n := |children|;
    forall x, y | 0 <= x < n && 0 <= y < n ensures ClosedAt(children, leq, x, y) {
      assert DerivedAt(children, leq, topo, x, y);
      forall c | c in children[y] && c < n ensures c in topo {
        assert Listed(topo, c);
      }
    }
  }

  /** The closure grows only along a requirements-first order. */
  lemma {:induction false} DerivedPos(children: seq<seq<nat>>, topo: seq<nat>, leq: seq<seq<bool>>, x: nat, y: nat)
    requires Entries(children, |children|) && Square(leq, |children|)
    requires Perm(topo, |children|) && ReqFirst(children, topo)
    requires forall x, y :: 0 <= x < |children| && 0 <= y < |children| ==> DerivedAt(children, leq, topo, x, y)
    requires x < |children| && y < |children| && leq[x][y]
    ensures PosOf(topo, |children|, x) <= PosOf(topo, |children|, y)
    decreases PosOf(topo, |children|, y)
  {
    var n := |children|;
    if x != y {
      assert DerivedAt(children, leq, topo, x, y);
      var c :| c in children[y] && c in topo && c != y && c < n && leq[x][c];
      var py := PosOf(topo, n, y);
      var j :| 0 <= j < |children[y]| && children[y][j] == c;
      assert c in topo[..py];
      var k :| 0 <= k < py && topo[..py][k] == c;
      if PosOf(topo, n, c) != k {
        PermApart(topo, n, PosOf(topo, n, c), k);
      }
      DerivedPos(children, topo, leq, x, c);
    }
  }

  /**
   * lattices.js:195-211: when the relation has no cycle (self-loops aside) the
   * result is its reflexive and transitive closure, a partial order; otherwise
   * the check of lattices.js:206 fails.
   */
  method Children2Leq(children: seq<seq<nat>>) returns (r: Result<seq<seq<bool>>>)
    requires Entries(children, |children|)
    ensures r.Success? <==> Acyclic(children)
    ensures r.Success? ==> Closure(children, r.value) && PartialOrder(|children|, r.value)
  {
    var n := |children|;
    var topo, _, parents := Children2Topo(children);
    ghost var ordered := ReqFirst(children, topo);
    var leq: seq<seq<bool>> := seq(n, (a: int) requires 0 <= a < n => seq(n, (b: int) => a == b));
    for i := 0 to n
      invariant Square(leq, n)
      invariant forall x :: 0 <= x < n ==> leq[x][x]
      invariant forall k, y :: 0 <= k < i && 0 <= y < n && y in parents[topo[k]] ==> leq[topo[k]][y]
      invariant ordered ==> forall x, y :: 0 <= x < n && 0 <= y < n ==> DerivedAt(children, leq, topo[..i], x, y)
    {
      var a := topo[i];
      assert forall j :: 0 <= j < |parents[a]| ==> parents[a][j] < n;
      var leq' := Propagate(leq, n, a, parents[a]);
      if ordered {
        PropagateStep(children, parents, topo, i, leq, leq');
        assert topo[..i + 1] == topo[..i] + [a];
      }
      forall k, y | 0 <= k < i + 1 && 0 <= y < n && y in parents[topo[k]] ensures leq'[topo[k]][y] {
        if k == i {
          assert leq[a][a];
        }
      }
      leq := leq';
    }
    assert topo[..n] == topo;
    var ok := NoneBelowEarlier(leq, topo);
    if !ok {
      if Acyclic(children) {
        OrderedPasses(children, topo, leq);
        assert false;
      }
      return Failure("a listed element is below an earlier one");
    }
    CheckedAcyclic(children, parents, topo, leq);
    DerivedClosure(children, topo, leq);
    ClosureOrder(children, leq);
    r := Success(leq);
  }

  // ---------------------------------------------------------------------
  // The closure of a relation without cycles is a partial order, and unique.

  lemma {:induction false} ClosureRank(children: seq<seq<nat>>, leq: seq<seq<bool>>, rank: seq<nat>, x: nat, y: nat)
    requires Closure(children, leq) && Ranked(children, rank) && x < |children| && y < |children| && leq[x][y]
    ensures x == y || rank[x] < rank[y]
    decreases rank[y]
  {
    if x != y {
      assert ClosedAt(children, leq, x, y);
      var c :| c in children[y] && c != y && c < |children| && leq[x][c];
      var j :| 0 <= j < |children[y]| && children[y][j] == c;
      ClosureRank(children, leq, rank, x, c);
    }
  }

  lemma {:induction false} ClosureTrans(children: seq<seq<nat>>, leq: seq<seq<bool>>, rank: seq<nat>, x: nat, y: nat, z: nat)
    requires Closure(children, leq) && Ranked(children, rank) && x < |children| && y < |children| && z < |children|
    requires leq[x][y] && leq[y][z]
    ensures leq[x][z]
    decreases rank[z]
  {
    if y != z {
      assert ClosedAt(children, leq, y, z);
      var c :| c in children[z] && c != z && c < |children| && leq[y][c];
      var j :| 0 <= j < |children[z]| && children[z][j] == c;
      ClosureTrans(children, leq, rank, x, y, c);
      assert ClosedAt(children, leq, x, z);
    }
  }

  /** The closure of a relation without cycles (self-loops aside) is a partial order. */
  lemma ClosureOrder(children: seq<seq<nat>>, leq: seq<seq<bool>>)
    requires Closure(children, leq) && Acyclic(children)
    ensures PartialOrder(|children|, leq)
  {
    var n := |children|;
    var rank :| Ranked(children, rank);
    forall a | 0 <= a < n ensures leq[a][a] {
      assert ClosedAt(children, leq, a, a);
    }
    forall a, b | 0 <= a < n && 0 <= b < n ensures Antisymmetric2(n, leq, a, b) {
      if leq[a][b] && leq[b][a] {
        ClosureRank(children, leq, rank, a, b);
        ClosureRank(children, leq, rank, b, a);
      }
    }
    forall a, b, c | 0 <= a < n && 0 <= b < n && 0 <= c < n ensures Transitive3(n, leq, a, b, c) {
      if leq[a][b] && leq[b][c] {
        ClosureTrans(children, leq, rank, a, b, c);
      }
    }
  }

  lemma {:induction false} ClosureAgree(children: seq<seq<nat>>, l1: seq<seq<bool>>, l2: seq<seq<bool>>, rank: seq<nat>, x: nat, y: nat)
    requires Closure(children, l1) && Closure(children, l2) && Ranked(children, rank) && x < |children| && y < |children|
    ensures l1[x][y] == l2[x][y]
    decreases rank[y]
  {
    var n := |children|;
    if l1[x][y] != l2[x][y] {
      assert ClosedAt(children, l1, x, y) && ClosedAt(children, l2, x, y);
      var p := if l1[x][y] then (l1, l2) else (l2, l1);
      var l, l' := p.0, p.1;
      var c :| c in children[y] && c != y && c < n && l[x][c];
      var j :| 0 <= j < |children[y]| && children[y][j] == c;
      ClosureAgree(children, l1, l2, rank, x, c);
    }
  }

  /** A relation without cycles (self-loops aside) has exactly one closure. */
  lemma ClosureUnique(children: seq<seq<nat>>, l1: seq<seq<bool>>, l2: seq<seq<bool>>)
    requires Acyclic(children) && Closure(children, l1) && Closure(children, l2)
    ensures l1 == l2
  {
    var n := |children|;
    var rank :| Ranked(children, rank);
    forall x | 0 <= x < n ensures l1[x] == l2[x] {
      forall y | 0 <= y < n ensures l1[x][y] == l2[x][y] {
        ClosureAgree(children, l1, l2, rank, x, y);
      }
    }
  }
}
