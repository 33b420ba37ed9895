/** LockManager: page-level shared/exclusive locks kept as a list of records per
    page, the set of pages each transaction holds, and the wait-for graph that a
    denied request feeds. */
module LockManagers {
  import opened JavaLang
  import opened PageIds
  import opened TransactionIds
  import opened WaitForGraphs
  import opened LockTables
  import opened DependencyGraphs

  type LockTable = map<HeapPageId, seq<Lock>>
  type HeldPages = map<TransactionId, set<HeapPageId>>

  /** holdsLock: pid is in tid's set of held pages. */
  function Holds(held: HeldPages, tid: TransactionId, pid: HeapPageId): bool {
    tid in held && pid in held[tid]
  }

  /** lockPage's grant adds pid to tid's set, creating the set when missing. */
  function AddHeld(held: HeldPages, tid: TransactionId, pid: HeapPageId): (r: HeldPages)
    ensures forall t, p :: Holds(r, t, p) <==> Holds(held, t, p) || (t == tid && p == pid)
  {
    var h := if tid in held then held else held[tid := {}];
    h[tid := h[tid] + {pid}]
  }

  /** unlockPage takes pid out of tid's set when tid has one. */
  function RemoveHeld(held: HeldPages, tid: TransactionId, pid: HeapPageId): (r: HeldPages)
    ensures forall t, p :: Holds(r, t, p) <==> Holds(held, t, p) && !(t == tid && p == pid)
  {
    if tid in held then held[tid := held[tid] - {pid}] else held
  }

  /** unlockPage's effect on the table: tid's records on pid are gone. */
  function UnlockOne(table: LockTable, tid: TransactionId, pid: HeapPageId): LockTable {
    if pid in table then table[pid := WithoutTid(table[pid], tid)] else table
  }

  /** The table after tid's records on every page of S are gone. */
  ghost function UnlockedAll(table: LockTable, tid: TransactionId, S: set<HeapPageId>): LockTable {
    map p | p in table :: if p in S then WithoutTid(table[p], tid) else table[p]
  }

  /** The wait-for edges left once tid released the pages of S. */
  ghost function ReleasedEdges(E: set<Edge>, tid: TransactionId, S: set<HeapPageId>): set<Edge> {
    set e | e in E && !(e.wait.peer == tid && e.wait.page in S)
  }

  /** The edges a denied request of tid on pid adds: one per blocker. */
  ghost function WaitEdges(tid: TransactionId, pid: HeapPageId, blockers: set<TransactionId>): set<Edge> {
    set t | t in blockers :: Edge(tid, Wait(pid, t))
  }

  ghost predicate PagesOk(table: LockTable) {
    forall p :: p in table ==> PageLocksOk(table[p], p)
  }

  /** A transaction has a record on a page exactly when the page is in its set. */
  ghost predicate HeldMatches(table: LockTable, held: HeldPages) {
    forall t, p :: HasRecord(PageLocks(table, p), t) <==> Holds(held, t, p)
  }

  /** Within unlockAllPages: tid's set is gone already, and tid's records remain
      only on the pages still to unlock. */
  ghost predicate HeldMatchesExcept(table: LockTable, held: HeldPages, tid: TransactionId, todo: set<HeapPageId>) {
    tid !in held &&
    (forall t, p :: t != tid ==> (HasRecord(PageLocks(table, p), t) <==> Holds(held, t, p))) &&
    (forall p :: HasRecord(PageLocks(table, p), tid) ==> p in todo)
  }

  lemma HasRecordAppend(locks: seq<Lock>, x: Lock, t: TransactionId)
    ensures HasRecord(locks + [x], t) <==> HasRecord(locks, t) || x.tid == t
  {
    var after := locks + [x];
    if HasRecord(locks, t) {
      var i :| 0 <= i < |locks| && locks[i].tid == t;
      assert after[i] == locks[i];
    }
    if x.tid == t {
      assert after[|locks|] == x;
    }
    if HasRecord(after, t) {
      var i :| 0 <= i < |after| && after[i].tid == t;
      if i < |locks| {
        assert after[i] == locks[i];
      }
    }
  }

  lemma HasRecordWithoutTid(locks: seq<Lock>, tid: TransactionId, t: TransactionId)
    ensures HasRecord(WithoutTid(locks, tid), t) <==> HasRecord(locks, t) && t != tid
  {
    var r := WithoutTid(locks, tid);
    WithoutTidContents(locks, tid);
    if HasRecord(r, t) {
      var i :| 0 <= i < |r| && r[i].tid == t;
      assert r[i] in r;
      var k :| 0 <= k < |locks| && locks[k] == r[i];
    }
    if HasRecord(locks, t) && t != tid {
      var i :| 0 <= i < |locks| && locks[i].tid == t;
      assert locks[i] in r;
      var k :| 0 <= k < |r| && r[k] == locks[i];
    }
  }

  lemma HasRecordSingle(x: Lock, t: TransactionId)
    ensures HasRecord([x], t) <==> x.tid == t
  {
    if x.tid == t {
      assert [x][0] == x;
    }
  }

  /** A grant records the lock in the page's list and in tid's set alike. */
  lemma GrantKeepsHeldMatches(table: LockTable, held: HeldPages, tid: TransactionId, pid: HeapPageId, x: Lock)
    requires HeldMatches(table, held) && x.tid == tid
    ensures HeldMatches(table[pid := PageLocks(table, pid) + [x]], AddHeld(held, tid, pid))
  {
    var table', held' := table[pid := PageLocks(table, pid) + [x]], AddHeld(held, tid, pid);
    forall t, p
      ensures HasRecord(PageLocks(table', p), t) <==> Holds(held', t, p)
    {
      if p == pid {
        HasRecordAppend(PageLocks(table, pid), x, t);
      } else {
        assert PageLocks(table', p) == PageLocks(table, p);
      }
    }
  }

  /** An upgrade changes the kind of the only record, not who holds it. */
  lemma UpgradeKeepsHeldMatches(table: LockTable, held: HeldPages, pid: HeapPageId)
    requires HeldMatches(table, held)
    requires pid in table && |table[pid]| == 1
    ensures HeldMatches(table[pid := [table[pid][0].(exclusive := true)]], held)
  {
    var table' := table[pid := [table[pid][0].(exclusive := true)]];
    forall t, p
      ensures HasRecord(PageLocks(table', p), t) <==> Holds(held, t, p)
    {
      if p == pid {
        HasRecordSingle(table[pid][0], t);
        HasRecordSingle(table[pid][0].(exclusive := true), t);
        assert table[pid] == [table[pid][0]];
      } else {
        assert PageLocks(table', p) == PageLocks(table, p);
      }
    }
  }

  /** unlockPage drops tid's records on pid and pid from tid's set together. */
  lemma UnlockKeepsHeldMatches(table: LockTable, held: HeldPages, tid: TransactionId, pid: HeapPageId)
    requires HeldMatches(table, held) && pid in table
    ensures HeldMatches(UnlockOne(table, tid, pid), RemoveHeld(held, tid, pid))
  {
    var table', held' := UnlockOne(table, tid, pid), RemoveHeld(held, tid, pid);
    forall t, p
      ensures HasRecord(PageLocks(table', p), t) <==> Holds(held', t, p)
    {
      if p == pid {
        HasRecordWithoutTid(table[pid], tid, t);
      } else {
        assert PageLocks(table', p) == PageLocks(table, p);
      }
    }
  }

  lemma UnlockKeepsPagesOk(table: LockTable, tid: TransactionId, pid: HeapPageId)
    requires PagesOk(table)
    ensures PagesOk(UnlockOne(table, tid, pid))
    ensures !HasRecord(PageLocks(UnlockOne(table, tid, pid), pid), tid)
  {
    if pid in table {
      WithoutTidKeepsPageLocks(table[pid], tid, pid);
    }
  }

  /** unlockAllPages first removes tid's set: every record of tid is on a page of it. */
  lemma ExceptStart(table: LockTable, held: HeldPages, tid: TransactionId)
    requires HeldMatches(table, held) && tid in held
    ensures HeldMatchesExcept(table, held - {tid}, tid, held[tid])
    ensures forall p :: p in held[tid] ==> p in table
  {
    forall p | p in held[tid]
      ensures p in table
    {
      assert Holds(held, tid, p);
    }
  }

  lemma ExceptStep(table: LockTable, held: HeldPages, tid: TransactionId, todo: set<HeapPageId>, pid: HeapPageId)
    requires HeldMatchesExcept(table, held, tid, todo) && pid in todo
    ensures HeldMatchesExcept(UnlockOne(table, tid, pid), held, tid, todo - {pid})
  {
    var table' := UnlockOne(table, tid, pid);
    forall t, p
      ensures HasRecord(PageLocks(table', p), t) <==>
              if t == tid then HasRecord(PageLocks(table', p), t) && p in todo - {pid}
              else HasRecord(PageLocks(table, p), t)
    {
      if p == pid && pid in table {
        HasRecordWithoutTid(table[pid], tid, t);
      } else {
        assert PageLocks(table', p) == PageLocks(table, p);
      }
    }
  }

  lemma ExceptEnd(table: LockTable, held: HeldPages, tid: TransactionId)
    requires HeldMatchesExcept(table, held, tid, {})
    ensures HeldMatches(table, held)
  {
  }

  lemma UnlockedAllNone(table: LockTable, tid: TransactionId, S: set<HeapPageId>)
    ensures UnlockedAll(table, tid, S - S) == table
  {
  }

  lemma UnlockedAllStep(table: LockTable, tid: TransactionId, S: set<HeapPageId>, todo: set<HeapPageId>, pid: HeapPageId)
    requires pid in todo && todo <= S
    ensures UnlockOne(UnlockedAll(table, tid, S - todo), tid, pid) == UnlockedAll(table, tid, S - (todo - {pid}))
  {
  }

  lemma ReleasedEdgesNone(E: set<Edge>, tid: TransactionId, S: set<HeapPageId>)
    ensures ReleasedEdges(E, tid, S - S) == E
  {
  }

  lemma ReleasedEdgesStep(E: set<Edge>, tid: TransactionId, S: set<HeapPageId>, todo: set<HeapPageId>, pid: HeapPageId)
    requires pid in todo && todo <= S
    ensures ReleasedEdges(ReleasedEdges(E, tid, S - todo), tid, {pid}) == ReleasedEdges(E, tid, S - (todo - {pid}))
  {
  }

  lemma WaitEdgesStep(tid: TransactionId, pid: HeapPageId, B: set<TransactionId>, extra: set<TransactionId>)
    ensures WaitEdges(tid, pid, B + extra) == WaitEdges(tid, pid, B) + WaitEdges(tid, pid, extra)
  {
  }

  /** One pass of addDependencies' loop: the record at i adds its wait-for edge
      exactly when it blocks the request. */
  lemma BlockerStep(E0: set<Edge>, before: set<Edge>, after: set<Edge>, tid: TransactionId, pid: HeapPageId,
                    locks: seq<Lock>, exclusive: bool, i: nat)
    requires i < |locks|
    requires before == E0 + WaitEdges(tid, pid, BlockersOf(locks[..i], tid, exclusive))
    requires after == if (exclusive || locks[i].exclusive) && locks[i].tid != tid
                      then before + {Edge(tid, Wait(pid, locks[i].tid))} else before
    ensures after == E0 + WaitEdges(tid, pid, BlockersOf(locks[..i + 1], tid, exclusive))
  {
    BlockersPrefixStep(locks, tid, exclusive, i);
    WaitEdgesStep(tid, pid, BlockersOf(locks[..i], tid, exclusive),
                  if (exclusive || locks[i].exclusive) && locks[i].tid != tid then {locks[i].tid} else {});
  }

  /** Adding edges never removes a cycle. */
  lemma CycleStays(E: set<Edge>, F: set<Edge>)
    requires E <= F && HasCycle(E)
    ensures HasCycle(F)
  {
    SubgraphCycles(F, E);
  }

  /** The addDependencies step that aborts: the rollback as written keeps the edge
      just added, and the graph stays within the edges the request may add. */
  lemma BlockerAborted(E0: set<Edge>, before: set<Edge>, after: set<Edge>, tid: TransactionId, pid: HeapPageId,
                       locks: seq<Lock>, exclusive: bool, i: nat)
    requires i < |locks| && (exclusive || locks[i].exclusive) && locks[i].tid != tid
    requires before == E0 + WaitEdges(tid, pid, BlockersOf(locks[..i], tid, exclusive))
    requires after == AsWrittenRollback(before, tid, locks[i].tid, pid)
    ensures after <= E0 + WaitEdges(tid, pid, BlockersOf(locks, tid, exclusive))
    ensures locks[i].tid in BlockersOf(locks, tid, exclusive)
    ensures Edge(tid, Wait(pid, locks[i].tid)) in after
  {
    BlockersPrefixStep(locks, tid, exclusive, i);
    BlockersOfPrefix(locks, tid, exclusive, i + 1);
    AsWrittenRollbackKeepsNewEdge(before, tid, locks[i].tid, pid);
  }

  class LockManager {
    var pageIdToLocks: LockTable
    var txIdToPageIds: HeldPages
    const dependencyGraph: DependencyGraph

    /** The graph keeps its mirror invariant and every page's list keeps the
        lock-table invariant. The graph may hold a cycle: the deadlock rollback of
        addDependency leaves the edge that closed it in place. */
    ghost predicate Core()
      reads this, dependencyGraph
    {
      dependencyGraph.Valid() && PagesOk(pageIdToLocks)
    }

    ghost predicate Valid()
      reads this, dependencyGraph
    {
      Core() && HeldMatches(pageIdToLocks, txIdToPageIds)
    }

    constructor ()
      ensures Valid() && fresh(dependencyGraph)
      ensures pageIdToLocks == map[] && txIdToPageIds == map[]
      ensures dependencyGraph.blockingMe == map[]
    {
      pageIdToLocks := map[];
      txIdToPageIds := map[];
      dependencyGraph := new DependencyGraph();
    }

    /** getLockHeldType: the first record of tid in the page's list decides. */
    method GetLockHeldType(tid: TransactionId, pid: HeapPageId) returns (r: Option<Permissions>)
      ensures r == HeldType(PageLocks(pageIdToLocks, pid), tid)
    {
      if pid in pageIdToLocks {
        var locks := pageIdToLocks[pid];
        var i := 0;
        while i < |locks|
          invariant 0 <= i <= |locks|
          invariant HeldType(locks[i..], tid) == HeldType(locks, tid)
        {
          if locks[i].tid == tid {
            return Some(if locks[i].exclusive then ReadWrite else ReadOnly);
          }
          assert locks[i..][1..] == locks[i + 1..];
          i := i + 1;
        }
      }
      return None;
    }

    method HoldsLock(tid: TransactionId, pid: HeapPageId) returns (b: bool)
      requires Valid()
      ensures b <==> HasRecord(PageLocks(pageIdToLocks, pid), tid)
    {
      if tid !in txIdToPageIds {
        return false;
      }
      return pid in txIdToPageIds[tid];
    }

    /** getPagesLockedByTx: null for a transaction with no set. */
    method GetPagesLockedByTx(tid: TransactionId) returns (r: Option<set<HeapPageId>>)
      requires Valid()
      ensures r.None? <==> tid !in txIdToPageIds
      ensures r.Some? ==> r.value == txIdToPageIds[tid]
      ensures r.Some? ==> forall p :: p in r.value <==> HasRecord(PageLocks(pageIdToLocks, p), tid)
    {
      if tid !in txIdToPageIds {
        return None;
      }
      r := Some(txIdToPageIds[tid]);
      assert forall p :: p in r.value <==> Holds(txIdToPageIds, tid, p);
    }

    /** upgradeLock: the only record on the page, if it is tid's, becomes exclusive. */
    method UpgradeLock(tid: TransactionId, pid: HeapPageId) returns (upgraded: bool)
      modifies this
      ensures upgraded <==> pid in old(pageIdToLocks) && |old(pageIdToLocks)[pid]| == 1 &&
                            old(pageIdToLocks)[pid][0].tid == tid
      ensures pageIdToLocks ==
              if upgraded then old(pageIdToLocks)[pid := [old(pageIdToLocks)[pid][0].(exclusive := true)]]
              else old(pageIdToLocks)
      ensures txIdToPageIds == old(txIdToPageIds)
    {
      if pid in pageIdToLocks {
        var pageLocks := pageIdToLocks[pid];
        if |pageLocks| == 1 {
          var onlyLock := pageLocks[0];
          if onlyLock.tid == tid {
            pageIdToLocks := pageIdToLocks[pid := [onlyLock.(exclusive := true)]];
            return true;
          }
        }
      }
      return false;
    }

    /** addDependencies: tid waits for every other holder when it asks for an
        exclusive lock, and for the exclusive holders only when it asks for a
        shared one; the first addDependency that throws ends the loop. Each call is
        addDependency as written, so an aborting call leaves its own edge behind
        and, once the graph holds a cycle, the first edge added aborts. */
    method AddDependencies(tid: TransactionId, pid: HeapPageId, exclusiveLock: bool, otherLocks: seq<Lock>)
      returns (r: Result<()>)
      requires dependencyGraph.Valid()
      modifies dependencyGraph
      ensures dependencyGraph.Valid()
      ensures r.Ok? ==> Edges(dependencyGraph.blockingMe) ==
                        Edges(old(dependencyGraph.blockingMe)) + WaitEdges(tid, pid, BlockersOf(otherLocks, tid, exclusiveLock))
      ensures r.Ok? && BlockersOf(otherLocks, tid, exclusiveLock) != {} ==> !HasCycle(Edges(dependencyGraph.blockingMe))
      ensures HasCycle(Edges(old(dependencyGraph.blockingMe))) && BlockersOf(otherLocks, tid, exclusiveLock) != {} ==> r.Err?
      ensures r.Err? ==> (r.error == TransactionAborted || r.error == NullPointer) &&
                         Edges(dependencyGraph.blockingMe) <=
                         Edges(old(dependencyGraph.blockingMe)) + WaitEdges(tid, pid, BlockersOf(otherLocks, tid, exclusiveLock)) &&
                         exists t :: t in BlockersOf(otherLocks, tid, exclusiveLock) &&
                                     Edge(tid, Wait(pid, t)) in Edges(dependencyGraph.blockingMe)
    {
      ghost var E0 := Edges(dependencyGraph.blockingMe);
      var i := 0;
      while i < |otherLocks|
        invariant 0 <= i <= |otherLocks|
        invariant dependencyGraph.Valid()
        invariant Edges(dependencyGraph.blockingMe) == E0 + WaitEdges(tid, pid, BlockersOf(otherLocks[..i], tid, exclusiveLock))
        invariant BlockersOf(otherLocks[..i], tid, exclusiveLock) != {} ==> !HasCycle(Edges(dependencyGraph.blockingMe))
        invariant HasCycle(E0) ==> BlockersOf(otherLocks[..i], tid, exclusiveLock) == {}
      {
        var l := otherLocks[i];
        ghost var before := Edges(dependencyGraph.blockingMe);
        if exclusiveLock || l.exclusive {
          if HasCycle(E0) && l.tid != tid {
            CycleStays(E0, before + {Edge(tid, Wait(pid, l.tid))});
          }
          var res := dependencyGraph.AddDependencyAsWritten(tid, l.tid, pid);
          if res.Err? {
            BlockerAborted(E0, before, Edges(dependencyGraph.blockingMe), tid, pid, otherLocks, exclusiveLock, i);
            return Err(res.error);
          }
        }
        BlockerStep(E0, before, Edges(dependencyGraph.blockingMe), tid, pid, otherLocks, exclusiveLock, i);
        BlockersPrefixStep(otherLocks, tid, exclusiveLock, i);
        i := i + 1;
      }
      assert otherLocks[..i] == otherLocks;
      return Ok(());
    }

    /** lockPage: grants the request, by the rules of Decide, or records what tid
        now waits for and returns false; an abort from the wait-for graph leaves
        the tables as they were. */
    method LockPage(tid: TransactionId, pid: HeapPageId, exclusiveLock: bool) returns (r: Result<bool>)
      requires Valid()
      modifies this, dependencyGraph
      ensures Valid()
      ensures r == Ok(true) <==> Decide(PageLocks(old(pageIdToLocks), pid), tid, exclusiveLock) != Deny
      ensures r == Ok(true) ==>
              Holds(txIdToPageIds, tid, pid) &&
              Covers(HeldType(PageLocks(pageIdToLocks, pid), tid), exclusiveLock)
      ensures forall q :: q != pid ==> PageLocks(pageIdToLocks, q) == PageLocks(old(pageIdToLocks), q)
      ensures var locks := PageLocks(old(pageIdToLocks), pid);
              var d := Decide(locks, tid, exclusiveLock);
              match d
              case AlreadyHeld =>
                pageIdToLocks == old(pageIdToLocks) && txIdToPageIds == old(txIdToPageIds) &&
                dependencyGraph.blockingMe == old(dependencyGraph.blockingMe)
              case Upgrade =>
                |locks| == 1 &&
                pageIdToLocks == old(pageIdToLocks)[pid := Apply(locks, d, tid, pid, exclusiveLock)] &&
                txIdToPageIds == old(txIdToPageIds) &&
                dependencyGraph.blockingMe == old(dependencyGraph.blockingMe)
              case Grant =>
                pageIdToLocks == old(pageIdToLocks)[pid := Apply(locks, d, tid, pid, exclusiveLock)] &&
                txIdToPageIds == AddHeld(old(txIdToPageIds), tid, pid) &&
                dependencyGraph.blockingMe == old(dependencyGraph.blockingMe)
              case Deny =>
                pageIdToLocks == old(pageIdToLocks) && txIdToPageIds == old(txIdToPageIds) &&
                ((r == Ok(false) &&
                  Edges(dependencyGraph.blockingMe) ==
                  Edges(old(dependencyGraph.blockingMe)) + WaitEdges(tid, pid, BlockersOf(locks, tid, exclusiveLock)) &&
                  !HasCycle(Edges(dependencyGraph.blockingMe))) ||
                 ((r == Err(TransactionAborted) || r == Err(NullPointer)) &&
                  Edges(dependencyGraph.blockingMe) <=
                  Edges(old(dependencyGraph.blockingMe)) + WaitEdges(tid, pid, BlockersOf(locks, tid, exclusiveLock)) &&
                  exists t :: t in BlockersOf(locks, tid, exclusiveLock) &&
                              Edge(tid, Wait(pid, t)) in Edges(dependencyGraph.blockingMe))) &&
                (HasCycle(Edges(old(dependencyGraph.blockingMe))) ==> r.Err?)
    {
      ghost var locks0 := PageLocks(pageIdToLocks, pid);
      assert PageLocksOk(locks0, pid);
      DecideKeepsPageLocks(locks0, tid, pid, exclusiveLock);
      var existing := GetLockHeldType(tid, pid);
      if Covers(existing, exclusiveLock) {
        assert Decide(locks0, tid, exclusiveLock) == AlreadyHeld;
        assert HasRecord(locks0, tid);
        return Ok(true);
      }
      var canAcquire := false;
      var otherLocks: seq<Lock> := [];
      if pid in pageIdToLocks {
        otherLocks := pageIdToLocks[pid];
        if |otherLocks| == 0 {
          canAcquire := true;
        } else {
          var upgraded := UpgradeLock(tid, pid);
          if upgraded {
            assert Decide(locks0, tid, exclusiveLock) == Upgrade;
            UpgradeKeepsHeldMatches(old(pageIdToLocks), txIdToPageIds, pid);
            GrantedRequestIsHeld(locks0, tid, pid, exclusiveLock);
            assert HasRecord(PageLocks(pageIdToLocks, pid), tid);
            return Ok(true);
          }
          var otherExclusiveLock := false;
          var i := 0;
          while i < |otherLocks|
            invariant 0 <= i <= |otherLocks|
            invariant otherExclusiveLock <==> exists j :: 0 <= j < i && otherLocks[j].exclusive
          {
            if otherLocks[i].exclusive {
              otherExclusiveLock := true;
            }
            i := i + 1;
          }
          if !exclusiveLock && !otherExclusiveLock {
            canAcquire := true;
          }
        }
      } else {
        canAcquire := true;
      }

      if !canAcquire {
        assert Decide(locks0, tid, exclusiveLock) == Deny;
        DenyHasBlocker(locks0, tid, pid, exclusiveLock);
        var res := AddDependencies(tid, pid, exclusiveLock, otherLocks);
        if res.Err? {
          return Err(res.error);
        }
        return Ok(false);
      }

      assert Decide(locks0, tid, exclusiveLock) == Grant;
      var newLock := Lock(tid, pid, exclusiveLock);
      GrantKeepsHeldMatches(pageIdToLocks, txIdToPageIds, tid, pid, newLock);
      GrantedRequestIsHeld(locks0, tid, pid, exclusiveLock);
      AddLock(newLock);
      assert HasRecord(PageLocks(pageIdToLocks, pid), tid);
      return Ok(true);
    }

    /** The grant at the end of lockPage: the record joins the page's list, which
        is created when missing, and the page joins the transaction's set. */
    method AddLock(newLock: Lock)
      modifies this
      ensures pageIdToLocks == old(pageIdToLocks)[newLock.pid := PageLocks(old(pageIdToLocks), newLock.pid) + [newLock]]
      ensures txIdToPageIds == AddHeld(old(txIdToPageIds), newLock.tid, newLock.pid)
    {
      var tid, pid := newLock.tid, newLock.pid;
      if pid !in pageIdToLocks {
        pageIdToLocks := pageIdToLocks[pid := []];
      }
      pageIdToLocks := pageIdToLocks[pid := pageIdToLocks[pid] + [newLock]];
      if tid !in txIdToPageIds {
        txIdToPageIds := txIdToPageIds[tid := {}];
      }
      txIdToPageIds := txIdToPageIds[tid := txIdToPageIds[tid] + {pid}];
    }

    /** unlockPage: removes every record of tid on pid, drops the wait-for edges on
        tid's lock on pid, and takes pid out of tid's set; a page with no entry is
        left alone. */
    method UnlockPage(tid: TransactionId, pid: HeapPageId)
      requires Core()
      modifies this, dependencyGraph
      ensures Core()
      ensures pageIdToLocks == UnlockOne(old(pageIdToLocks), tid, pid)
      ensures !HasRecord(PageLocks(pageIdToLocks, pid), tid)
      ensures txIdToPageIds == if pid in old(pageIdToLocks) then RemoveHeld(old(txIdToPageIds), tid, pid) else old(txIdToPageIds)
      ensures Edges(dependencyGraph.blockingMe) ==
              if pid in old(pageIdToLocks) then ReleasedEdges(Edges(old(dependencyGraph.blockingMe)), tid, {pid})
              else Edges(old(dependencyGraph.blockingMe))
      ensures old(HeldMatches(pageIdToLocks, txIdToPageIds)) ==> HeldMatches(pageIdToLocks, txIdToPageIds)
    {
      UnlockKeepsPagesOk(pageIdToLocks, tid, pid);
      if pid !in pageIdToLocks {
        return;
      }
      if HeldMatches(pageIdToLocks, txIdToPageIds) {
        UnlockKeepsHeldMatches(pageIdToLocks, txIdToPageIds, tid, pid);
      }
      ghost var E0 := Edges(dependencyGraph.blockingMe);
      var locks := pageIdToLocks[pid];
      var kept: seq<Lock> := [];
      var i := 0;
      while i < |locks|
        invariant 0 <= i <= |locks|
        invariant kept == WithoutTid(locks[..i], tid)
      {
        assert locks[..i + 1][..i] == locks[..i];
        if locks[i].tid != tid {
          kept := kept + [locks[i]];
        }
        i := i + 1;
      }
      assert locks[..i] == locks;
      pageIdToLocks := pageIdToLocks[pid := kept];

      dependencyGraph.RemoveDependencies(tid, pid);
      assert Edges(dependencyGraph.blockingMe) == ReleasedEdges(E0, tid, {pid});

      if tid in txIdToPageIds {
        txIdToPageIds := txIdToPageIds[tid := txIdToPageIds[tid] - {pid}];
      }
    }

    /** unlockAllPages: takes tid's set out of the map, then unlocks each of its
        pages in turn. */
    method UnlockAllPages(tid: TransactionId)
      requires Valid()
      modifies this, dependencyGraph
      ensures Valid()
      ensures txIdToPageIds == old(txIdToPageIds) - {tid}
      ensures forall p :: !HasRecord(PageLocks(pageIdToLocks, p), tid)
      ensures var S := if tid in old(txIdToPageIds) then old(txIdToPageIds)[tid] else {};
              pageIdToLocks == UnlockedAll(old(pageIdToLocks), tid, S) &&
              Edges(dependencyGraph.blockingMe) == ReleasedEdges(Edges(old(dependencyGraph.blockingMe)), tid, S)
    {
      if tid !in txIdToPageIds {
        UnlockedAllNone(pageIdToLocks, tid, {});
        ReleasedEdgesNone(Edges(dependencyGraph.blockingMe), tid, {});
        return;
      }
      var pageIds := txIdToPageIds[tid];
      ExceptStart(pageIdToLocks, txIdToPageIds, tid);
      txIdToPageIds := txIdToPageIds - {tid};

      ghost var L0 := pageIdToLocks;
      ghost var E0 := Edges(dependencyGraph.blockingMe);
      UnlockedAllNone(L0, tid, pageIds);
      ReleasedEdgesNone(E0, tid, pageIds);
      var todo := pageIds;
      while todo != {}
        invariant todo <= pageIds
        invariant Core()
        invariant txIdToPageIds == old(txIdToPageIds) - {tid}
        invariant pageIdToLocks == UnlockedAll(L0, tid, pageIds - todo)
        invariant Edges(dependencyGraph.blockingMe) == ReleasedEdges(E0, tid, pageIds - todo)
        invariant HeldMatchesExcept(pageIdToLocks, txIdToPageIds, tid, todo)
        decreases todo
      {
        var pid :| pid in todo;
        ExceptStep(pageIdToLocks, txIdToPageIds, tid, todo, pid);
        UnlockedAllStep(L0, tid, pageIds, todo, pid);
        ReleasedEdgesStep(E0, tid, pageIds, todo, pid);
        assert pid in pageIdToLocks;
        UnlockPage(tid, pid);
        todo := todo - {pid};
      }
      assert pageIds - {} == pageIds;
      ExceptEnd(pageIdToLocks, txIdToPageIds, tid);
    }
  }
}
