/** The wait-for graph of the lock table (DependencyGraph.java): two mirrored
    adjacency maps, updated in place, and a Kahn topological-sort deadlock check. */
module DependencyGraphs {
  import opened JavaLang
  import opened PageIds
  import opened TransactionIds
  import opened WaitForGraphs
  import opened KahnFacts

  class DependencyGraph {
    /** Waiting transaction -> (page, holder) pairs it waits for. */
    var blockingMe: Adjacency
    /** Holder -> (page, waiter) pairs waiting on it. */
    var waitingOnMe: Adjacency

    ghost predicate Valid()
      reads this
    {
      Mirrored(blockingMe, waitingOnMe) && Closed(blockingMe)
    }

    constructor ()
      ensures Valid()
      ensures blockingMe == map[] && waitingOnMe == map[]
    {
      blockingMe := map[];
      waitingOnMe := map[];
    }

    /** Records that `waiter` waits for `runner` on `pid`, in both maps; `runner` is
        made a key of blockingMe so that the key set is the node set. */
    method Link(waiter: TransactionId, runner: TransactionId, pid: HeapPageId)
      requires Valid()
      modifies this
      ensures Valid()
      ensures Edges(blockingMe) == Edges(old(blockingMe)) + {Edge(waiter, Wait(pid, runner))}
      ensures blockingMe.Keys == old(blockingMe).Keys + {waiter, runner}
      ensures waitingOnMe.Keys == old(waitingOnMe).Keys + {runner}
    {
      LinkKeepsInvariant(blockingMe, waitingOnMe, waiter, runner, pid);
      blockingMe := WithKey(blockingMe, runner);
      blockingMe := AddPair(blockingMe, waiter, Wait(pid, runner));
      waitingOnMe := AddPair(waitingOnMe, runner, Wait(pid, waiter));
    }

    /** _removeDependency: removes the pair (pid, finishedRunning) from `waiting`'s
        blockingMe set and the pair (pid, waiting) from finishedRunning's waitingOnMe
        set. Returns false where the Java code throws a NullPointerException, which
        happens when finishedRunning is not a key of waitingOnMe. */
    method RemoveDependency(finishedRunning: TransactionId, waiting: TransactionId, pid: HeapPageId) returns (ok: bool)
      modifies this
      ensures blockingMe == RemovePair(old(blockingMe), waiting, Wait(pid, finishedRunning))
      ensures ok <==> waiting !in old(blockingMe) || finishedRunning in old(waitingOnMe)
      ensures waitingOnMe == if waiting in old(blockingMe) && ok
                             then RemovePair(old(waitingOnMe), finishedRunning, Wait(pid, waiting))
                             else old(waitingOnMe)
    {
      if waiting !in blockingMe {
        return true;
      }
      blockingMe := blockingMe[waiting := blockingMe[waiting] - {Wait(pid, finishedRunning)}];
      if finishedRunning !in waitingOnMe {
        ok := false;
      } else {
        ok := true;
        waitingOnMe := waitingOnMe[finishedRunning := waitingOnMe[finishedRunning] - {Wait(pid, waiting)}];
      }
    }

    /** removeDependencies: `finishedRunning` released `pid`, so every transaction
        waiting on it for that page stops waiting; edges on other pages or to other
        holders stay. */
    method RemoveDependencies(finishedRunning: TransactionId, pid: HeapPageId)
      requires Valid()
      modifies this
      ensures Valid()
      ensures forall e :: e in Edges(blockingMe) <==> e in Edges(old(blockingMe)) && e.wait != Wait(pid, finishedRunning)
      ensures blockingMe.Keys == old(blockingMe).Keys
      ensures waitingOnMe.Keys == old(waitingOnMe).Keys
      ensures forall r :: r in waitingOnMe ==>
        forall y :: y in waitingOnMe[r] <==> y in old(waitingOnMe)[r] && (r != finishedRunning || y.page != pid)
    {
      if finishedRunning !in waitingOnMe {
        forall e | e in Edges(blockingMe)
          ensures e.wait != Wait(pid, finishedRunning)
        {
          EdgesMembership(blockingMe, e);
        }
        return;
      }
      ghost var b0, w0 := blockingMe, waitingOnMe;
      forall y | y in waitingOnMe[finishedRunning]
        ensures y.peer in blockingMe
      {
        WaiterIsKey(blockingMe, waitingOnMe, finishedRunning, y);
      }
      ghost var removed := ReleaseWaiters(finishedRunning, pid);
      ReleaseRemovesEdges(b0, w0, blockingMe, finishedRunning, pid, removed);
      ReleaseKeepsInvariant(b0, w0, finishedRunning, pid, removed);
    }

    /** The loop of removeDependencies: _removeDependency for every waiter listed on
        `pid` in a copy of finishedRunning's waitingOnMe set. */
    method ReleaseWaiters(finishedRunning: TransactionId, pid: HeapPageId) returns (ghost removed: set<Wait>)
      requires finishedRunning in waitingOnMe
      requires forall y :: y in waitingOnMe[finishedRunning] ==> y.peer in blockingMe
      modifies this
      ensures removed == Picked(old(waitingOnMe)[finishedRunning], {}, pid)
      ensures waitingOnMe == old(waitingOnMe)[finishedRunning := old(waitingOnMe)[finishedRunning] - removed]
      ensures blockingMe == Released(old(blockingMe), finishedRunning, pid, removed)
    {
      ghost var b0, w0 := blockingMe, waitingOnMe;
      var blockedByMe := waitingOnMe[finishedRunning];
      var todo := blockedByMe;
      removed := {};
      ReleasedNothing(b0, finishedRunning, pid);
      assert blockedByMe - removed == w0[finishedRunning];
      assert w0[finishedRunning := blockedByMe - removed] == w0;
      while todo != {}
        invariant todo <= blockedByMe
        invariant removed == Picked(blockedByMe, todo, pid)
        invariant waitingOnMe == w0[finishedRunning := blockedByMe - removed]
        invariant blockingMe == Released(b0, finishedRunning, pid, removed)
        decreases |todo|
      {
        var blocked :| blocked in todo;
        PickedStep(blockedByMe, todo, pid, blocked);
        if blocked.page == pid {
          ReleasedStep(b0, finishedRunning, pid, removed, blocked);
          RemovePairAfterUpdate(w0, finishedRunning, blockedByMe, removed, blocked);
          var _ := RemoveDependency(finishedRunning, blocked.peer, pid);
          removed := removed + {blocked};
        }
        todo := todo - {blocked};
      }
    }

    /** Lines 69-82 of detectDeadlock: the in-degree of every node, each parallel
        edge counted once. */
    method InDegrees() returns (indeg: Degrees)
      requires Closed(blockingMe)
      ensures indeg.Keys == blockingMe.Keys
      ensures CountsIncoming(indeg, Edges(blockingMe))
    {
      indeg := map[];
      var sources := blockingMe.Keys;
      EdgesFromNone(blockingMe);
      while sources != {}
        invariant sources <= blockingMe.Keys
        invariant blockingMe.Keys - sources <= indeg.Keys <= blockingMe.Keys
        invariant CountsIncoming(indeg, EdgesFrom(blockingMe, blockingMe.Keys - sources))
        decreases |sources|
      {
        var source :| source in sources;
        if source !in indeg {
          indeg := indeg[source := 0];
        }
        WalkedStart(blockingMe, blockingMe.Keys - sources, source);
        indeg := CountTargets(indeg, source, blockingMe.Keys - sources);
        WalkedEnd(blockingMe, sources, source);
        sources := sources - {source};
      }
      EdgesFromAll(blockingMe);
    }

    /** The inner loop of the in-degree pass: each destination of source gains one,
        once the sources in done were counted. */
    method CountTargets(indeg0: Degrees, source: TransactionId, ghost done: set<TransactionId>) returns (indeg: Degrees)
      requires Closed(blockingMe) && source in blockingMe && source !in done
      requires done + {source} <= indeg0.Keys <= blockingMe.Keys
      requires CountsIncoming(indeg0, Walked(blockingMe, done, source, blockingMe[source]))
      ensures done + {source} <= indeg.Keys <= blockingMe.Keys
      ensures CountsIncoming(indeg, Walked(blockingMe, done, source, {}))
    {
      indeg := indeg0;
      var destinations := blockingMe[source];
      while destinations != {}
        invariant destinations <= blockingMe[source]
        invariant done + {source} <= indeg.Keys <= blockingMe.Keys
        invariant CountsIncoming(indeg, Walked(blockingMe, done, source, destinations))
        decreases |destinations|
      {
        var p :| p in destinations;
        var dest := p.peer;
        ghost var before := indeg;
        if dest !in indeg {
          indeg := indeg[dest := 0];
        }
        indeg := indeg[dest := indeg[dest] + 1];
        assert indeg == Bumped(before, dest);
        assert dest in blockingMe;
        WalkedStep(blockingMe, done, source, destinations, p);
        CountOneMore(before, Walked(blockingMe, done, source, destinations), Edge(source, p));
        destinations := destinations - {p};
      }
    }

    /** Lines 85-96 of detectDeadlock: isolated nodes are removed from blockingMe and
        the other nodes of in-degree 0 are queued as sources. */
    method PruneIsolated(indeg: Degrees) returns (queue: seq<TransactionId>)
      requires indeg.Keys == blockingMe.Keys
      requires CountsIncoming(indeg, Edges(blockingMe))
      modifies this`blockingMe
      ensures blockingMe == Pruned(old(blockingMe))
      ensures forall v :: v in queue <==> v in blockingMe && indeg[v] == 0
      ensures NoDuplicates(queue)
    {
      ghost var b0 := blockingMe;
      queue := [];
      var todo := indeg.Keys;
      PrunedAmongNone(b0, indeg);
      while todo != {}
        invariant todo <= b0.Keys
        invariant blockingMe == PrunedAmong(b0, indeg, b0.Keys - todo)
        invariant forall v :: v in queue <==> v in QueuedAmong(b0, indeg, b0.Keys - todo)
        invariant forall v :: v in queue ==> v !in todo
        invariant NoDuplicates(queue)
        decreases |todo|
      {
        var source :| source in todo;
        PrunedAmongStep(b0, indeg, todo, source);
        if indeg[source] == 0 {
          if |blockingMe[source]| == 0 {
            blockingMe := blockingMe - {source};
          } else {
            queue := queue + [source];
          }
        }
        todo := todo - {source};
      }
      PrunedAmongAll(b0, indeg);
    }

    /** Lines 98-112 of detectDeadlock: Kahn's loop. Every node is visited iff the
        graph has no cycle. */
    method CountVisited(indeg0: Degrees, queue0: seq<TransactionId>) returns (visitedCount: int)
      requires Closed(blockingMe)
      requires blockingMe.Keys <= indeg0.Keys
      requires CountsIncoming(indeg0, Edges(blockingMe))
      requires forall v :: v in queue0 <==> v in blockingMe && indeg0[v] == 0
      requires NoDuplicates(queue0)
      ensures 0 <= visitedCount <= |blockingMe|
      ensures visitedCount == |blockingMe| <==> !HasCycle(Edges(blockingMe))
    {
      var indeg := indeg0;
      var sources := queue0;
      visitedCount := 0;
      ghost var popped: set<TransactionId> := {};
      ghost var rank: map<TransactionId, int> := map[];
      PendingNone(Edges(blockingMe));
      RankedNone(Edges(blockingMe));
      FrontierStart(blockingMe, indeg, sources);
      while |sources| > 0
        invariant popped <= blockingMe.Keys && visitedCount == |popped|
        invariant blockingMe.Keys <= indeg.Keys
        invariant CountsIncoming(indeg, Pending(Edges(blockingMe), popped))
        invariant Frontier(blockingMe, indeg, popped, sources)
        invariant Ranked(Edges(blockingMe), rank, popped)
        decreases |blockingMe.Keys - popped|
      {
        var current := sources[0];
        FrontierPop(blockingMe, indeg, popped, sources);
        sources := sources[1..];
        visitedCount := visitedCount + 1;
        RankedPop(Edges(blockingMe), rank, popped, current);
        PendingDuringStart(blockingMe, popped, current);
        rank := rank[current := |popped|];
        popped := popped + {current};
        indeg, sources := DecrementChildren(current, indeg, sources, popped);
      }
      KahnVerdict(blockingMe, indeg, popped, rank);
    }

    /** Lines 103-109 of detectDeadlock: the children of the node just popped lose
        one incoming edge each, and those whose count reaches 0 are queued. */
    method DecrementChildren(current: TransactionId, indeg0: Degrees, sources0: seq<TransactionId>, ghost popped: set<TransactionId>)
      returns (indeg: Degrees, sources: seq<TransactionId>)
      requires Closed(blockingMe) && current in blockingMe && current in popped
      requires blockingMe.Keys <= indeg0.Keys
      requires CountsIncoming(indeg0, PendingDuring(Edges(blockingMe), popped, current, blockingMe[current]))
      requires Frontier(blockingMe, indeg0, popped, sources0)
      ensures blockingMe.Keys <= indeg.Keys
      ensures CountsIncoming(indeg, Pending(Edges(blockingMe), popped))
      ensures Frontier(blockingMe, indeg, popped, sources)
    {
      indeg, sources := indeg0, sources0;
      var children := blockingMe[current];
      while children != {}
        invariant children <= blockingMe[current]
        invariant blockingMe.Keys <= indeg.Keys
        invariant CountsIncoming(indeg, PendingDuring(Edges(blockingMe), popped, current, children))
        invariant Frontier(blockingMe, indeg, popped, sources)
        decreases |children|
      {
        var p :| p in children;
        var childId := p.peer;
        ghost var pending := PendingDuring(Edges(blockingMe), popped, current, children);
        PendingDuringStep(blockingMe, popped, current, children, p);
        ChildIsCounted(blockingMe, indeg, pending, current, p);
        FrontierDecrement(blockingMe, indeg, popped, sources, childId);
        CountOneLess(indeg, indeg[childId := indeg[childId] - 1], pending, Edge(current, p));
        indeg := indeg[childId := indeg[childId] - 1];
        if indeg[childId] == 0 {
          sources := sources + [childId];
        }
        children := children - {p};
      }
      PendingDuringEnd(Edges(blockingMe), popped, current);
    }

    /** detectDeadlock: true iff the stored edges hold a cycle; isolated nodes are
        dropped on the way and no edge is removed. */
    method DetectDeadlock() returns (cycle: bool)
      requires Valid()
      modifies this
      ensures Valid()
      ensures blockingMe == Pruned(old(blockingMe)) && waitingOnMe == old(waitingOnMe)
      ensures cycle <==> HasCycle(Edges(old(blockingMe)))
    {
      var indegrees := InDegrees();
      var sources := PruneIsolated(indegrees);
      PrunedKeepsEdges(old(blockingMe));
      PrunedKeepsMirror(old(blockingMe), waitingOnMe);
      forall v | v in blockingMe
        ensures indegrees[v] == |Incoming(Edges(blockingMe), v)|
      {
      }
      var visitedCount := CountVisited(indegrees, sources);
      cycle := visitedCount != |blockingMe|;
    }

    /** addDependency with the deadlock rollback removing the edge just added. A
        waiter equal to the runner changes nothing; otherwise the edge is stored, and
        if it closes a cycle it is taken out again and the call aborts. */
    method AddDependency(waiter: TransactionId, runner: TransactionId, pid: HeapPageId) returns (r: Result<()>)
      requires Valid()
      modifies this
      ensures Valid()
      ensures waiter == runner ==> r == Ok(()) && blockingMe == old(blockingMe) && waitingOnMe == old(waitingOnMe)
      ensures waiter != runner ==>
        (r.Ok? <==> !HasCycle(Edges(old(blockingMe)) + {Edge(waiter, Wait(pid, runner))}))
      ensures waiter != runner && r.Ok? ==>
        Edges(blockingMe) == Edges(old(blockingMe)) + {Edge(waiter, Wait(pid, runner))}
      ensures r.Err? ==>
        r.error == TransactionAborted &&
        Edges(blockingMe) == CorrectedRollback(Edges(old(blockingMe)), waiter, runner, pid)
      ensures !HasCycle(Edges(old(blockingMe))) ==> !HasCycle(Edges(blockingMe))
    {
      if waiter == runner {
        return Ok(());
      }
      Link(waiter, runner, pid);
      label AfterLink:
      var cycle := DetectDeadlock();
      PrunedKeepsEdges(old@AfterLink(blockingMe));
      if cycle {
        ghost var b, w := blockingMe, waitingOnMe;
        var ok := RemoveDependency(runner, waiter, pid);
        RemoveDependencyEffect(b, w, blockingMe, waitingOnMe, runner, waiter, pid, ok);
        if !HasCycle(Edges(old(blockingMe))) {
          CorrectedRollbackRestores(Edges(old(blockingMe)), waiter, runner, pid);
        }
        return Err(TransactionAborted);
      }
      return Ok(());
    }

    /** addDependency as written: on a cycle, _removeDependency(waiter, runner, pid)
        removes the reverse edge runner -> waiter on pid, and throws a
        NullPointerException when nobody waits on the waiter. */
    method AddDependencyAsWritten(waiter: TransactionId, runner: TransactionId, pid: HeapPageId) returns (r: Result<()>)
      requires Valid()
      modifies this
      ensures Valid()
      ensures waiter == runner ==> r == Ok(()) && blockingMe == old(blockingMe) && waitingOnMe == old(waitingOnMe)
      ensures waiter != runner ==>
        (r.Ok? <==> !HasCycle(Edges(old(blockingMe)) + {Edge(waiter, Wait(pid, runner))}))
      ensures waiter != runner && r.Ok? ==>
        Edges(blockingMe) == Edges(old(blockingMe)) + {Edge(waiter, Wait(pid, runner))}
      ensures r.Err? ==>
        (r.error == TransactionAborted || r.error == NullPointer) &&
        Edges(blockingMe) == AsWrittenRollback(Edges(old(blockingMe)), waiter, runner, pid)
      ensures r == Err(NullPointer) ==> waiter !in old(waitingOnMe)
    {
      if waiter == runner {
        return Ok(());
      }
      Link(waiter, runner, pid);
      label AfterLink:
      var cycle := DetectDeadlock();
      PrunedKeepsEdges(old@AfterLink(blockingMe));
      if cycle {
        ghost var b, w := blockingMe, waitingOnMe;
        var ok := RemoveDependency(waiter, runner, pid);
        RemoveDependencyEffect(b, w, blockingMe, waitingOnMe, waiter, runner, pid, ok);
        if !ok {
          return Err(NullPointer);
        }
        return Err(TransactionAborted);
      }
      return Ok(());
    }
  }
}
