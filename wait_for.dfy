/** The wait-for graph kept by the lock table, as values: adjacency maps from a
    transaction to the (page, peer) pairs it is linked to, the edge set they denote,
    and what it means for that edge set to hold a cycle. */
module WaitForGraphs {
  import opened PageIds
  import opened TransactionIds

  /** One entry of an adjacency set: the page and the transaction at the other end. */
  datatype Wait = Wait(page: HeapPageId, peer: TransactionId)

  /** blockingMe maps a waiting transaction to what it waits for; waitingOnMe maps a
      holder to the transactions waiting on it. */
  type Adjacency = map<TransactionId, set<Wait>>

  /** `src` waits for `wait.peer` to release `wait.page`. Edges between the same two
      transactions on different pages are different edges. */
  datatype Edge = Edge(src: TransactionId, wait: Wait)

  ghost function Edges(m: Adjacency): set<Edge> {
    set s, w | s in m && w in m[s] :: Edge(s, w)
  }

  lemma EdgesMembership(m: Adjacency, e: Edge)
    ensures e in Edges(m) <==> e.src in m && e.wait in m[e.src]
  {
    if e.src in m && e.wait in m[e.src] {
      assert Edge(e.src, e.wait) in Edges(m);
    }
  }

  /** Every pair in one map has its mirror image in the other; a missing key stands
      for an empty set. */
  ghost predicate Mirrored(blockingMe: Adjacency, waitingOnMe: Adjacency) {
    (forall s, x | s in blockingMe && x in blockingMe[s] ::
       x.peer in waitingOnMe && Wait(x.page, s) in waitingOnMe[x.peer]) &&
    (forall r, y | r in waitingOnMe && y in waitingOnMe[r] ::
       y.peer in blockingMe && Wait(y.page, r) in blockingMe[y.peer])
  }

  /** Every transaction that is waited for is itself a key, so the key set is the
      node set of the graph. */
  ghost predicate Closed(m: Adjacency) {
    forall s, x | s in m && x in m[s] :: x.peer in m
  }

  ghost function Incoming(E: set<Edge>, v: TransactionId): set<Edge> {
    set e | e in E && e.wait.peer == v
  }

  /** A node the deadlock check drops: nothing waits for it and it waits for nothing. */
  ghost predicate Isolated(m: Adjacency, k: TransactionId)
    requires k in m
  {
    m[k] == {} && Incoming(Edges(m), k) == {}
  }

  lemma IncomingInsert(S: set<Edge>, e: Edge, v: TransactionId)
    requires e !in S
    ensures Incoming(S + {e}, v) == if e.wait.peer == v then Incoming(S, v) + {e} else Incoming(S, v)
  {
  }

  lemma IncomingRemove(S: set<Edge>, e: Edge, v: TransactionId)
    requires e in S
    ensures Incoming(S - {e}, v) == if e.wait.peer == v then Incoming(S, v) - {e} else Incoming(S, v)
  {
  }

  ghost function Pruned(m: Adjacency): (p: Adjacency)
    ensures p.Keys <= m.Keys
  {
    map k | k in m && !Isolated(m, k) :: m[k]
  }

  /** Pruning removes nodes only: the edge set stays, and so does closedness. */
  lemma PrunedKeepsEdges(m: Adjacency)
    requires Closed(m)
    ensures Edges(Pruned(m)) == Edges(m)
    ensures Closed(Pruned(m))
  {
    var p := Pruned(m);
    forall e | e in Edges(m)
      ensures e in Edges(p) && e.wait.peer in p
    {
      EdgesMembership(m, e);
      assert e in Incoming(Edges(m), e.wait.peer);
      EdgesMembership(p, e);
    }
    forall e | e in Edges(p)
      ensures e in Edges(m)
    {
      EdgesMembership(p, e);
      EdgesMembership(m, e);
    }
    forall s: TransactionId, x: Wait | s in p && x in p[s]
      ensures x.peer in p
    {
      EdgesMembership(m, Edge(s, x));
    }
  }

  /** Pruning keeps the two maps mirror images of each other. */
  lemma PrunedKeepsMirror(b: Adjacency, w: Adjacency)
    requires Mirrored(b, w) && Closed(b)
    ensures Mirrored(Pruned(b), w)
  {
    var p := Pruned(b);
    forall r: TransactionId, y: Wait | r in w && y in w[r]
      ensures y.peer in p && Wait(y.page, r) in p[y.peer]
    {
      EdgesMembership(b, Edge(y.peer, Wait(y.page, r)));
    }
  }

  /** The maps after `waiter` starts waiting for `runner` on `pid` (runner becomes a
      key of blockingMe if it was not one). */
  function WithKey(m: Adjacency, k: TransactionId): (r: Adjacency)
    ensures r.Keys == m.Keys + {k}
  {
    if k in m then m else m[k := {}]
  }

  function AddPair(m: Adjacency, k: TransactionId, x: Wait): (r: Adjacency)
    ensures r.Keys == m.Keys + {k}
  {
    m[k := (if k in m then m[k] else {}) + {x}]
  }

  lemma LinkKeepsInvariant(b: Adjacency, w: Adjacency, waiter: TransactionId, runner: TransactionId, pid: HeapPageId)
    requires Mirrored(b, w) && Closed(b)
    ensures var b', w' := AddPair(WithKey(b, runner), waiter, Wait(pid, runner)), AddPair(w, runner, Wait(pid, waiter));
            Mirrored(b', w') && Closed(b') &&
            Edges(b') == Edges(b) + {Edge(waiter, Wait(pid, runner))}
  {
    var b', w' := AddPair(WithKey(b, runner), waiter, Wait(pid, runner)), AddPair(w, runner, Wait(pid, waiter));
    forall s: TransactionId, x: Wait | s in b' && x in b'[s]
      ensures x.peer in w' && Wait(x.page, s) in w'[x.peer]
    {
      if s != waiter || x != Wait(pid, runner) {
        assert s in b && x in b[s];
      }
    }
    forall r: TransactionId, y: Wait | r in w' && y in w'[r]
      ensures y.peer in b' && Wait(y.page, r) in b'[y.peer]
    {
      if r != runner || y != Wait(pid, waiter) {
        assert r in w && y in w[r];
      }
    }
    forall s: TransactionId, x: Wait | s in b' && x in b'[s]
      ensures x.peer in b'
    {
      if s != waiter || x != Wait(pid, runner) {
        assert s in b && x in b[s];
      }
    }
    forall e
      ensures e in Edges(b') <==> e in Edges(b) || e == Edge(waiter, Wait(pid, runner))
    {
      EdgesMembership(b', e);
      EdgesMembership(b, e);
    }
  }

  /** The map with x taken out of k's set (unchanged when k is not a key). */
  function RemovePair(m: Adjacency, k: TransactionId, x: Wait): (r: Adjacency)
    ensures r.Keys == m.Keys
  {
    if k in m then m[k := m[k] - {x}] else m
  }

  lemma RemovePairEdges(m: Adjacency, k: TransactionId, x: Wait)
    ensures Edges(RemovePair(m, k, x)) == Edges(m) - {Edge(k, x)}
  {
    forall e
      ensures e in Edges(RemovePair(m, k, x)) <==> e in Edges(m) && e != Edge(k, x)
    {
      EdgesMembership(RemovePair(m, k, x), e);
      EdgesMembership(m, e);
    }
  }

  /** Taking an edge out of both maps keeps them mirror images. */
  lemma RemovePairKeepsMirror(b: Adjacency, w: Adjacency, f: TransactionId, waiting: TransactionId, pid: HeapPageId)
    requires Mirrored(b, w)
    ensures Mirrored(RemovePair(b, waiting, Wait(pid, f)), RemovePair(w, f, Wait(pid, waiting)))
  {
    var b', w' := RemovePair(b, waiting, Wait(pid, f)), RemovePair(w, f, Wait(pid, waiting));
    forall s: TransactionId, x: Wait | s in b' && x in b'[s]
      ensures x.peer in w' && Wait(x.page, s) in w'[x.peer]
    {
      assert x in b[s];
    }
    forall r: TransactionId, y: Wait | r in w' && y in w'[r]
      ensures y.peer in b' && Wait(y.page, r) in b'[y.peer]
    {
      assert y in w[r];
    }
  }

  /** When the holder has no waitingOnMe entry, nobody waits on it, so removing the
      pair from blockingMe changes nothing. */
  lemma RemoveAbsentPair(b: Adjacency, w: Adjacency, f: TransactionId, waiting: TransactionId, pid: HeapPageId)
    requires Mirrored(b, w) && f !in w
    ensures RemovePair(b, waiting, Wait(pid, f)) == b
  {
    if waiting in b {
      assert Wait(pid, f) !in b[waiting];
      assert b[waiting] - {Wait(pid, f)} == b[waiting];
    }
  }

  lemma RemovePairKeepsClosed(b: Adjacency, waiting: TransactionId, x: Wait)
    requires Closed(b)
    ensures Closed(RemovePair(b, waiting, x))
  {
    var b' := RemovePair(b, waiting, x);
    forall s: TransactionId, y: Wait | s in b' && y in b'[s]
      ensures y.peer in b'
    {
      assert y in b[s];
    }
  }

  /** Taking one more released pair out of the holder's waitingOnMe set. */
  lemma RemovePairAfterUpdate(m: Adjacency, k: TransactionId, B: set<Wait>, removed: set<Wait>, x: Wait)
    ensures RemovePair(m[k := B - removed], k, x) == m[k := B - (removed + {x})]
  {
    assert (B - removed) - {x} == B - (removed + {x});
  }

  /** The pairs of B on page pid that are no longer in `todo`. */
  ghost function Picked(B: set<Wait>, todo: set<Wait>, pid: HeapPageId): set<Wait> {
    set y | y in B && y !in todo && y.page == pid
  }

  lemma PickedStep(B: set<Wait>, todo: set<Wait>, pid: HeapPageId, x: Wait)
    requires x in todo
    ensures x !in Picked(B, todo, pid)
    ensures Picked(B, todo - {x}, pid) == if x in B && x.page == pid then Picked(B, todo, pid) + {x} else Picked(B, todo, pid)
  {
  }

  /** The state _removeDependency leaves behind, whichever way it ends: the edge
      `waiting` -> (pid, f) is gone, every other edge stays, and the two maps remain
      mirror images (when f has no waitingOnMe entry, nothing waits for f, so the
      blockingMe removal it still performs changes nothing). */
  lemma RemoveDependencyEffect(b: Adjacency, w: Adjacency, b': Adjacency, w': Adjacency,
                               f: TransactionId, waiting: TransactionId, pid: HeapPageId, ok: bool)
    requires Mirrored(b, w) && Closed(b)
    requires b' == RemovePair(b, waiting, Wait(pid, f))
    requires ok <==> waiting !in b || f in w
    requires w' == if waiting in b && ok then RemovePair(w, f, Wait(pid, waiting)) else w
    ensures Mirrored(b', w') && Closed(b')
    ensures Edges(b') == Edges(b) - {Edge(waiting, Wait(pid, f))}
  {
    RemovePairEdges(b, waiting, Wait(pid, f));
    RemovePairKeepsClosed(b, waiting, Wait(pid, f));
    if waiting in b && ok {
      RemovePairKeepsMirror(b, w, f, waiting, pid);
    } else if waiting in b {
      RemoveAbsentPair(b, w, f, waiting, pid);
    }
  }

  lemma WaiterIsKey(b: Adjacency, w: Adjacency, holder: TransactionId, y: Wait)
    requires Mirrored(b, w) && holder in w && y in w[holder]
    ensures y.peer in b && Wait(y.page, holder) in b[y.peer]
  {
  }

  /** blockingMe after (pid, f) has been removed from the set of every waiter w with
      (pid, w) in `removed`. */
  ghost function Released(b0: Adjacency, f: TransactionId, pid: HeapPageId, removed: set<Wait>): Adjacency {
    map s | s in b0 :: if Wait(pid, s) in removed then b0[s] - {Wait(pid, f)} else b0[s]
  }

  lemma ReleasedNothing(b0: Adjacency, f: TransactionId, pid: HeapPageId)
    ensures Released(b0, f, pid, {}) == b0
  {
  }

  lemma ReleasedStep(b0: Adjacency, f: TransactionId, pid: HeapPageId, removed: set<Wait>, blocked: Wait)
    requires blocked.page == pid && blocked !in removed
    ensures Released(b0, f, pid, removed).Keys == b0.Keys
    ensures Released(b0, f, pid, removed + {blocked})
            == RemovePair(Released(b0, f, pid, removed), blocked.peer, Wait(pid, f))
  {
    assert Wait(pid, blocked.peer) == blocked;
  }

  /** Once (pid, f) is removed from the set of every waiter listed on pid in f's
      waitingOnMe set, no edge into f on pid is left and every other edge stays. */
  lemma ReleaseRemovesEdges(b0: Adjacency, w0: Adjacency, b: Adjacency, f: TransactionId, pid: HeapPageId, removed: set<Wait>)
    requires Mirrored(b0, w0) && f in w0
    requires forall y :: y in removed <==> y in w0[f] && y.page == pid
    requires b == Released(b0, f, pid, removed)
    ensures forall e :: e in Edges(b) <==> e in Edges(b0) && e.wait != Wait(pid, f)
    ensures b.Keys == b0.Keys
  {
    forall e
      ensures e in Edges(b) <==> e in Edges(b0) && e.wait != Wait(pid, f)
    {
      EdgesMembership(b, e);
      EdgesMembership(b0, e);
    }
  }

  /** Releasing keeps the two maps mirror images and blockingMe closed. */
  lemma ReleaseKeepsInvariant(b0: Adjacency, w0: Adjacency, f: TransactionId, pid: HeapPageId, removed: set<Wait>)
    requires Mirrored(b0, w0) && Closed(b0) && f in w0
    requires forall y :: y in removed <==> y in w0[f] && y.page == pid
    ensures Mirrored(Released(b0, f, pid, removed), w0[f := w0[f] - removed])
    ensures Closed(Released(b0, f, pid, removed))
  {
    var b, w := Released(b0, f, pid, removed), w0[f := w0[f] - removed];
    forall s: TransactionId, x: Wait | s in b && x in b[s]
      ensures x.peer in w && Wait(x.page, s) in w[x.peer]
    {
      assert x in b0[s];
    }
    forall r: TransactionId, y: Wait | r in w && y in w[r]
      ensures y.peer in b && Wait(y.page, r) in b[y.peer]
    {
      assert y in w0[r];
    }
  }

  ghost predicate Linked(E: set<Edge>, a: TransactionId, b: TransactionId) {
    exists w :: Edge(a, w) in E && w.peer == b
  }

  /** A closed walk of at least one edge. */
  ghost predicate IsCycle(E: set<Edge>, c: seq<TransactionId>) {
    |c| >= 2 && c[0] == c[|c| - 1] &&
    forall i :: 0 <= i < |c| - 1 ==> Linked(E, c[i], c[i + 1])
  }

  ghost predicate HasCycle(E: set<Edge>) {
    exists c :: IsCycle(E, c)
  }

  /** Dropping edges cannot create a cycle. */
  lemma SubgraphKeepsAcyclic(E: set<Edge>, F: set<Edge>)
    requires F <= E && !HasCycle(E)
    ensures !HasCycle(F)
  {
    SubgraphCycles(E, F);
  }

  /** A cycle of a subgraph is a cycle of the whole graph. */
  lemma SubgraphCycles(E: set<Edge>, F: set<Edge>)
    requires F <= E
    ensures forall c :: IsCycle(F, c) ==> IsCycle(E, c)
  {
    forall c | IsCycle(F, c)
      ensures IsCycle(E, c)
    {
      forall i | 0 <= i < |c| - 1
        ensures Linked(E, c[i], c[i + 1])
      {
        assert Linked(F, c[i], c[i + 1]);
        var w :| Edge(c[i], w) in F && w.peer == c[i + 1];
      }
    }
  }

  ghost predicate NoDuplicates(q: seq<TransactionId>) {
    forall i, j :: 0 <= i < j < |q| ==> q[i] != q[j]
  }

  /** If every edge goes from a lower rank to a higher one, no walk returns to its start. */
  lemma RankedIsAcyclic(E: set<Edge>, rank: map<TransactionId, int>)
    requires forall e :: e in E ==> e.src in rank && e.wait.peer in rank && rank[e.src] < rank[e.wait.peer]
    ensures !HasCycle(E)
  {
    if c :| IsCycle(E, c) {
      RankIncreasesAlongWalk(E, rank, c, |c| - 1);
      assert false;
    }
  }

  lemma {:induction false} RankIncreasesAlongWalk(E: set<Edge>, rank: map<TransactionId, int>, c: seq<TransactionId>, k: nat)
    requires forall e :: e in E ==> e.src in rank && e.wait.peer in rank && rank[e.src] < rank[e.wait.peer]
    requires 1 <= k < |c|
    requires forall i :: 0 <= i < |c| - 1 ==> Linked(E, c[i], c[i + 1])
    ensures c[0] in rank && c[k] in rank && rank[c[0]] < rank[c[k]]
  {
    assert Linked(E, c[k - 1], c[k]);
    var w :| Edge(c[k - 1], w) in E && w.peer == c[k];
    if k > 1 {
      RankIncreasesAlongWalk(E, rank, c, k - 1);
    }
  }

  /** Pigeonhole: a sequence longer than the set its elements come from repeats one. */
  lemma {:induction false} Pigeonhole(q: seq<TransactionId>, U: set<TransactionId>) returns (i: nat, j: nat)
    requires forall k :: 0 <= k < |q| ==> q[k] in U
    requires |q| > |U|
    ensures i < j < |q| && q[i] == q[j]
  {
    if exists k :: 0 < k < |q| && q[k] == q[0] {
      i := 0;
      j :| 0 < j < |q| && q[j] == q[0];
    } else {
      var rest := q[1..];
      forall k | 0 <= k < |rest|
        ensures rest[k] in U - {q[0]}
      {
        assert rest[k] == q[k + 1];
      }
      var i', j' := Pigeonhole(rest, U - {q[0]});
      i, j := i' + 1, j' + 1;
    }
  }

  /** Some edge into u starts inside U. */
  ghost predicate HasPredecessorIn(E: set<Edge>, U: set<TransactionId>, u: TransactionId) {
    exists e :: e in E && e.wait.peer == u && e.src in U
  }

  /** Following predecessors inside U for n steps back from `last`: a walk of n edges
      inside U that ends at `last`. */
  lemma {:induction false} WalkInto(E: set<Edge>, U: set<TransactionId>, last: TransactionId, n: nat)
    returns (w: seq<TransactionId>)
    requires last in U
    requires forall u {:trigger HasPredecessorIn(E, U, u)} :: u in U ==> HasPredecessorIn(E, U, u)
    ensures |w| == n + 1 && w[n] == last
    ensures forall i :: 0 <= i < |w| ==> w[i] in U
    ensures forall i :: 0 <= i < n ==> Linked(E, w[i], w[i + 1])
  {
    if n == 0 {
      w := [last];
    } else {
      var rest := WalkInto(E, U, last, n - 1);
      assert HasPredecessorIn(E, U, rest[0]);
      var e :| e in E && e.wait.peer == rest[0] && e.src in U;
      assert Edge(e.src, e.wait) == e;
      w := [e.src] + rest;
      assert Linked(E, w[0], w[1]);
      forall i | 1 <= i < n
        ensures Linked(E, w[i], w[i + 1])
      {
        assert w[i] == rest[i - 1] && w[i + 1] == rest[i];
      }
    }
  }

  /** A non-empty set of nodes each of which has a predecessor inside the set holds a cycle. */
  lemma CyclicCore(E: set<Edge>, U: set<TransactionId>)
    requires U != {}
    requires forall u {:trigger HasPredecessorIn(E, U, u)} :: u in U ==> HasPredecessorIn(E, U, u)
    ensures HasCycle(E)
  {
    var last :| last in U;
    var w := WalkInto(E, U, last, |U|);
    var i, j := Pigeonhole(w, U);
    var c := w[i..j + 1];
    forall k | 0 <= k < |c| - 1
      ensures Linked(E, c[k], c[k + 1])
    {
      assert c[k] == w[i + k] && c[k + 1] == w[i + k + 1];
      assert Linked(E, w[i + k], w[i + k + 1]);
    }
    assert c[0] == w[i] && c[|c| - 1] == w[j];
    assert IsCycle(E, c);
  }

  /** The edge set after a rollback that removes the edge just added. */
  ghost function CorrectedRollback(E: set<Edge>, waiter: TransactionId, runner: TransactionId, pid: HeapPageId): set<Edge> {
    (E + {Edge(waiter, Wait(pid, runner))}) - {Edge(waiter, Wait(pid, runner))}
  }

  /** The edge set after the rollback as written: the removal names the reverse edge
      runner -> waiter on the same page. */
  ghost function AsWrittenRollback(E: set<Edge>, waiter: TransactionId, runner: TransactionId, pid: HeapPageId): set<Edge> {
    (E + {Edge(waiter, Wait(pid, runner))}) - {Edge(runner, Wait(pid, waiter))}
  }

  /** Adding an edge to an acyclic graph and rolling it back on a cycle restores the
      graph, so the corrected rollback keeps the wait-for graph acyclic. */
  lemma CorrectedRollbackRestores(E: set<Edge>, waiter: TransactionId, runner: TransactionId, pid: HeapPageId)
    requires !HasCycle(E)
    requires HasCycle(E + {Edge(waiter, Wait(pid, runner))})
    ensures CorrectedRollback(E, waiter, runner, pid) == E
  {
    var x := Edge(waiter, Wait(pid, runner));
    var c :| IsCycle(E + {x}, c);
    PresentEdgeCycle(E, x, c);
  }

  /** A cycle through E plus an edge E already has is a cycle of E. */
  lemma PresentEdgeCycle(E: set<Edge>, x: Edge, c: seq<TransactionId>)
    requires IsCycle(E + {x}, c)
    ensures x in E ==> IsCycle(E, c)
  {
    if x in E {
      assert E + {x} == E;
    }
  }

  /** The rollback as written never removes the edge that closed the cycle. */
  lemma AsWrittenRollbackKeepsNewEdge(E: set<Edge>, waiter: TransactionId, runner: TransactionId, pid: HeapPageId)
    requires waiter != runner
    ensures Edge(waiter, Wait(pid, runner)) in AsWrittenRollback(E, waiter, runner, pid)
  {
  }

  /** T1 waits for T2 on page 2; T2 then waits for T1 on page 1. The cycle is detected,
      the rollback as written removes the absent edge T1 -> T2 on page 1, and the
      cycle stays in the graph. */
  lemma AsWrittenRollbackLeavesCycle()
    ensures var t1, t2 := TransactionId(1), TransactionId(2);
            var p1, p2 := HeapPageId(0, 1), HeapPageId(0, 2);
            var E := {Edge(t1, Wait(p2, t2))};
            !HasCycle(E) &&
            HasCycle(E + {Edge(t2, Wait(p1, t1))}) &&
            HasCycle(AsWrittenRollback(E, t2, t1, p1))
  {
    var t1, t2 := TransactionId(1), TransactionId(2);
    var p1, p2 := HeapPageId(0, 1), HeapPageId(0, 2);
    var E := {Edge(t1, Wait(p2, t2))};
    RankedIsAcyclic(E, map[t1 := 0, t2 := 1]);
    var after := AsWrittenRollback(E, t2, t1, p1);
    assert after == E + {Edge(t2, Wait(p1, t1))};
    var c := [t1, t2, t1];
    assert Edge(t1, Wait(p2, t2)) in after && Edge(t2, Wait(p1, t1)) in after;
    assert Linked(after, c[0], c[1]) && Linked(after, c[1], c[2]);
    assert IsCycle(after, c);
    assert IsCycle(E + {Edge(t2, Wait(p1, t1))}, c);
  }
}
