/** BufferPool: the cache of pages between the heap files and the operators. Every
    page request takes a page lock first; a transaction's end writes back (commit) or
    drops (abort) the dirty pages it locked, then releases its locks. */
module BufferPools {
  import opened JavaLang
  import opened PageIds
  import opened TransactionIds
  import opened LockTables
  import opened LockManagers
  import opened WaitForGraphs
  import opened HeapStorage

  /** BufferPool.DEFAULT_PAGES. */
  const DEFAULT_PAGES: int := 50

  /** getPage asks for an exclusive lock exactly for a non-null READ_WRITE permission. */
  function Exclusive(perm: Option<Permissions>): (b: bool)
    ensures b <==> perm == Some(ReadWrite)
  {
    perm.Some? && perm.value == ReadWrite
  }

  /** The cached pages among S that some transaction has dirtied, given each cached
      page's dirty marker. */
  function DirtyIn(marks: map<HeapPageId, Option<TransactionId>>, S: set<HeapPageId>): set<HeapPageId> {
    set p | p in S && p in marks && marks[p].Some?
  }

  /** s lists each element of S exactly once. */
  ghost predicate ListsOnce(s: seq<HeapPageId>, S: set<HeapPageId>) {
    (forall i, j :: 0 <= i < j < |s| ==> s[i] != s[j]) && (forall p :: p in s <==> p in S)
  }

  lemma DirtyInStep(marks: map<HeapPageId, Option<TransactionId>>, S: set<HeapPageId>, todo: set<HeapPageId>, pid: HeapPageId)
    requires pid in todo && todo <= S
    ensures DirtyIn(marks, S - (todo - {pid})) ==
            DirtyIn(marks, S - todo) + (if pid in marks && marks[pid].Some? then {pid} else {})
  {
  }

  /** The markers after the pages of T were marked clean. */
  function Cleaned(marks: map<HeapPageId, Option<TransactionId>>, T: set<HeapPageId>): (r: map<HeapPageId, Option<TransactionId>>)
    ensures r.Keys == marks.Keys
    ensures forall p :: p in r ==> r[p] == if p in T then None else marks[p]
  {
    map p | p in marks :: if p in T then None else marks[p]
  }

  lemma CleanedStep(marks: map<HeapPageId, Option<TransactionId>>, T: set<HeapPageId>, pid: HeapPageId)
    ensures Cleaned(Cleaned(marks, T), {pid}) == Cleaned(marks, T + {pid})
  {
  }

  lemma ListsOnceStep(s: seq<HeapPageId>, A: set<HeapPageId>, x: HeapPageId)
    requires ListsOnce(s, A) && x !in A
    ensures ListsOnce(s + [x], A + {x})
  {
  }

  /** The write that flushing the page pid holding data makes. */
  function WriteOf(pid: HeapPageId, data: PageImage): PageWrite {
    PageWrite(pid.tableId, Offset(pid.pageNum), data)
  }

  class BufferPool {
    const numPages: int
    var idToPage: map<HeapPageId, HeapPage>
    const lockManager: LockManager
    /** The catalog's heap files by table id, and the file system they are stored in;
        Catalog and Database are not part of this model. */
    const catalog: map<int, HeapFile>
    const disk: Disk

    /** The lock manager keeps its invariant; the catalog files each table under its
        own id; each cached page is filed under its own id, belongs to a catalogued
        table, and sits at a non-negative offset (it was read from there). */
    ghost predicate Valid()
      reads this, lockManager, lockManager.dependencyGraph
    {
      lockManager.Valid() &&
      (forall t :: t in catalog ==> catalog[t].tableId == t) &&
      (forall pid :: pid in idToPage ==>
         idToPage[pid].pid == pid && pid.tableId in catalog && Offset(pid.pageNum) >= 0)
    }

    /** Each cached page's dirty marker (isDirty()). */
    ghost function Marks(): map<HeapPageId, Option<TransactionId>>
      reads this, idToPage.Values
    {
      map p | p in idToPage :: idToPage[p].dirtier
    }

    /** Each cached page's data (getPageData()). */
    ghost function Contents(): map<HeapPageId, PageImage>
      reads this, idToPage.Values
    {
      map p | p in idToPage :: idToPage[p].tuples
    }

    /** The writes list the flushed pages in order, each with the data it holds. */
    static ghost predicate Logged(flushed: seq<HeapPageId>, writes: seq<PageWrite>, contents: map<HeapPageId, PageImage>) {
      |writes| == |flushed| &&
      forall i :: 0 <= i < |flushed| ==>
        flushed[i] in contents && writes[i] == WriteOf(flushed[i], contents[flushed[i]])
    }

    /** new BufferPool(nPages): an empty cache and a fresh lock manager. */
    constructor (nPages: int, catalog: map<int, HeapFile>, disk: Disk)
      requires forall t :: t in catalog ==> catalog[t].tableId == t
      ensures Valid() && fresh(lockManager) && fresh(lockManager.dependencyGraph)
      ensures numPages == nPages && idToPage == map[] && this.catalog == catalog && this.disk == disk
      ensures lockManager.pageIdToLocks == map[] && lockManager.txIdToPageIds == map[]
    {
      numPages := nPages;
      idToPage := map[];
      lockManager := new LockManager();
      this.catalog := catalog;
      this.disk := disk;
    }

    /** getPage(tid, pid, perm): the lock first (a refusal is asked again, so it waits:
        LockWait; a deadlock, or a wait-for graph left cyclic by an earlier abort,
        throws), then the cache lookup of Fetch. */
    method GetPage(tid: TransactionId, pid: HeapPageId, perm: Option<Permissions>)
      returns (r: Result<HeapPage>, ghost evicted: Option<HeapPageId>)
      requires Valid()
      modifies this`idToPage, lockManager, lockManager.dependencyGraph
      ensures Valid()
      ensures var d := Decide(PageLocks(old(lockManager.pageIdToLocks), pid), tid, Exclusive(perm));
              (d == Deny ==> (r == Err(LockWait) || r == Err(TransactionAborted) || r == Err(NullPointer)) &&
                             idToPage == old(idToPage) && evicted.None? &&
                             (HasCycle(Edges(old(lockManager.dependencyGraph.blockingMe))) ==> r != Err(LockWait))) &&
              (d != Deny ==> Holds(lockManager.txIdToPageIds, tid, pid) &&
                             Covers(HeldType(PageLocks(lockManager.pageIdToLocks, pid), tid), Exclusive(perm)) &&
                             Fetched(old(idToPage), idToPage, old(disk.files), pid, r, evicted))
      ensures old(|idToPage|) <= numPages ==> |idToPage| <= numPages
      ensures r.Ok? ==> pid in idToPage && idToPage[pid] == r.value && r.value.pid == pid
      ensures forall q :: q in idToPage ==> idToPage[q] in old(idToPage.Values) || fresh(idToPage[q])
      ensures forall q :: q != pid ==> PageLocks(lockManager.pageIdToLocks, q) == PageLocks(old(lockManager.pageIdToLocks), q)
    {
      var granted := lockManager.LockPage(tid, pid, Exclusive(perm));
      if granted.Err? {
        return Err(granted.error), None;
      }
      if !granted.value {
        return Err(LockWait), None;
      }
      r, evicted := Fetch(pid);
    }

    /** What getPage does once the lock is held, from cache `before` to cache `after`:
        one eviction if the cache is full, even when pid is cached (the first clean page,
        or DbException when all are dirty); then the cached page itself, or the page
        read from its table's file, now cached; reading a table the catalog lacks, or a
        page at a negative offset, ends in exit. */
    ghost predicate Fetched(before: map<HeapPageId, HeapPage>, after: map<HeapPageId, HeapPage>,
                            files: map<int, FileState>, pid: HeapPageId,
                            r: Result<HeapPage>, evicted: Option<HeapPageId>)
      reads before.Values, if r.Ok? then {r.value} else {}
    {
      (|before| >= numPages <==> evicted.Some? || r == Err(DbError)) &&
      (evicted.Some? ==> evicted.value in before && before[evicted.value].dirtier.None?) &&
      (r == Err(DbError) ==> evicted.None? && after == before && forall p :: p in before ==> before[p].dirtier.Some?) &&
      var cache := if evicted.Some? then before - {evicted.value} else before;
      (r.Ok? && pid in cache ==> r.value == cache[pid] && after == cache) &&
      (r.Ok? && pid !in cache ==>
         after == cache[pid := r.value] && pid.tableId in catalog &&
         r.value.tuples == ImageOf(files, pid.tableId, Offset(pid.pageNum)) &&
         r.value.dirtier.None? && r.value.numSlots == catalog[pid.tableId].slotsPerPage) &&
      (r == Err(ProcessExit) ==> pid !in cache && after == cache &&
                                 (pid.tableId !in catalog || pid.tableId !in files || Offset(pid.pageNum) < 0)) &&
      (r.Err? ==> r.error in {DbError, ProcessExit})
    }

    /** The part of getPage after the lock: eviction when full, then hit or miss. */
    method Fetch(pid: HeapPageId) returns (r: Result<HeapPage>, ghost evicted: Option<HeapPageId>)
      requires Valid()
      modifies this`idToPage
      ensures Valid()
      ensures Fetched(old(idToPage), idToPage, disk.files, pid, r, evicted)
      ensures r.Ok? ==> pid in idToPage && idToPage[pid] == r.value && r.value.pid == pid
      ensures forall q :: q in idToPage ==> idToPage[q] in old(idToPage.Values) || fresh(idToPage[q])
      ensures old(|idToPage|) <= numPages ==> |idToPage| <= numPages
    {
      evicted := None;
      if |idToPage| >= numPages {
        var ev;
        ev, evicted := EvictPage();
        if ev.Err? {
          return Err(ev.error), None;
        }
      }
      r := Lookup(pid);
    }

    /** The hit-or-miss part of getPage: the cached page, or the page read from its
        table's file and cached. */
    method Lookup(pid: HeapPageId) returns (r: Result<HeapPage>)
      requires Valid()
      modifies this`idToPage
      ensures Valid()
      ensures r.Ok? ==> pid in idToPage && idToPage[pid] == r.value && r.value.pid == pid
      ensures pid in old(idToPage) ==> r == Ok(old(idToPage)[pid]) && idToPage == old(idToPage)
      ensures pid !in old(idToPage) && r.Ok? ==>
                fresh(r.value) && idToPage == old(idToPage)[pid := r.value] && pid.tableId in catalog &&
                r.value.tuples == ImageOf(disk.files, pid.tableId, Offset(pid.pageNum)) &&
                r.value.dirtier.None? && r.value.numSlots == catalog[pid.tableId].slotsPerPage
      ensures r.Err? ==> r == Err(ProcessExit) && pid !in old(idToPage) && idToPage == old(idToPage) &&
                         (pid.tableId !in catalog || pid.tableId !in disk.files || Offset(pid.pageNum) < 0)
    {
      if pid in idToPage {
        return Ok(idToPage[pid]);
      }
      if pid.tableId !in catalog {
        return Err(ProcessExit);
      }
      var dbf := catalog[pid.tableId];
      var fetched := dbf.ReadPage(disk, Some(pid));
      if fetched.Err? {
        return Err(ProcessExit);
      }
      var page := fetched.value.value;
      idToPage := idToPage[pid := page];
      return Ok(page);
    }

    /** releasePage(tid, pid): tid's lock on pid is released. */
    method ReleasePage(tid: TransactionId, pid: HeapPageId)
      requires Valid()
      modifies lockManager, lockManager.dependencyGraph
      ensures Valid()
      ensures !HasRecord(PageLocks(lockManager.pageIdToLocks, pid), tid)
      ensures lockManager.pageIdToLocks == UnlockOne(old(lockManager.pageIdToLocks), tid, pid)
      ensures forall q :: q != pid ==> PageLocks(lockManager.pageIdToLocks, q) == PageLocks(old(lockManager.pageIdToLocks), q)
      ensures lockManager.txIdToPageIds ==
              if pid in old(lockManager.pageIdToLocks) then RemoveHeld(old(lockManager.txIdToPageIds), tid, pid)
              else old(lockManager.txIdToPageIds)
    {
      lockManager.UnlockPage(tid, pid);
    }

    /** holdsLock(tid, pid). */
    method HoldsLock(tid: TransactionId, pid: HeapPageId) returns (b: bool)
      requires Valid()
      ensures b <==> Holds(lockManager.txIdToPageIds, tid, pid)
      ensures b <==> HasRecord(PageLocks(lockManager.pageIdToLocks, pid), tid)
    {
      b := lockManager.HoldsLock(tid, pid);
    }

    /** evictPage(): the first clean page in the map's entry order leaves the cache; when
        every page is dirty it throws DbException (no page is written back early). */
    method EvictPage() returns (r: Result<()>, ghost evicted: Option<HeapPageId>)
      requires Valid()
      modifies this`idToPage
      ensures Valid()
      ensures r.Ok? <==> exists p :: p in old(idToPage) && old(idToPage)[p].dirtier.None?
      ensures r.Ok? ==> evicted.Some? && evicted.value in old(idToPage) &&
                        old(idToPage)[evicted.value].dirtier.None? &&
                        idToPage == old(idToPage) - {evicted.value}
      ensures r.Err? ==> r == Err(DbError) && evicted.None? && idToPage == old(idToPage)
    {
      var entries := idToPage.Keys;
      var pageIdToEvict: Option<HeapPageId> := None;
      while entries != {} && pageIdToEvict.None?
        invariant entries <= idToPage.Keys
        invariant pageIdToEvict.None? ==> forall p :: p in idToPage && p !in entries ==> idToPage[p].dirtier.Some?
        invariant pageIdToEvict.Some? ==> pageIdToEvict.value in idToPage && idToPage[pageIdToEvict.value].dirtier.None?
        decreases entries
      {
        var pid :| pid in entries;
        if idToPage[pid].dirtier.None? {
          pageIdToEvict := Some(pid);
        }
        entries := entries - {pid};
      }
      if pageIdToEvict.None? {
        return Err(DbError), None;
      }
      idToPage := idToPage - {pageIdToEvict.value};
      return Ok(()), pageIdToEvict;
    }

    /** flushPage(pid): a cached dirty page is written to its table's file and marked
        clean; an uncached or clean page is left alone. */
    method FlushPage(pid: HeapPageId)
      requires Valid()
      modifies disk, if pid in idToPage then {idToPage[pid]} else {}
      ensures Contents() == old(Contents())
      ensures Marks() == Cleaned(old(Marks()), {pid})
      ensures disk.files == if pid in DirtyIn(old(Marks()), {pid})
                            then Written(old(disk.files), pid.tableId, Offset(pid.pageNum), old(Contents())[pid])
                            else old(disk.files)
    {
      if pid !in idToPage {
        return;
      }
      var p := idToPage[pid];
      if p.dirtier.Some? {
        var df := catalog[pid.tableId];
        var written := df.WritePage(disk, p);
        p.MarkDirty(false, None);
      }
    }

    /** Where the flush loop stands once the pages of S outside todo were flushed,
        starting from markers marks0, data contents0 and files files0. */
    ghost predicate FlushProgress(S: set<HeapPageId>, todo: set<HeapPageId>,
                                  marks0: map<HeapPageId, Option<TransactionId>>, contents0: map<HeapPageId, PageImage>,
                                  files0: map<int, FileState>, flushed: seq<HeapPageId>, writes: seq<PageWrite>)
      reads this, idToPage.Values, disk
    {
      Contents() == contents0 && Marks() == Cleaned(marks0, S - todo) &&
      ListsOnce(flushed, DirtyIn(marks0, S - todo)) && Logged(flushed, writes, contents0) &&
      Placed(writes) && disk.files == WriteAll(files0, writes)
    }

    /** The loop shared by flushAllPages and a commit: flushPage on each page of S, in
        the set's iteration order. The pages of S end clean; each dirty cached one was
        written once, in the order of `flushed`; nothing else changes. */
    method FlushEach(S: set<HeapPageId>) returns (ghost flushed: seq<HeapPageId>, ghost writes: seq<PageWrite>)
      requires Valid()
      modifies disk, idToPage.Values
      ensures FlushProgress(S, {}, old(Marks()), old(Contents()), old(disk.files), flushed, writes)
    {
      ghost var marks0, contents0, files0 := Marks(), Contents(), disk.files;
      flushed, writes := [], [];
      var todo := S;
      assert S - todo == {};
      while todo != {}
        invariant todo <= S
        invariant FlushProgress(S, todo, marks0, contents0, files0, flushed, writes)
        decreases todo
      {
        var pid :| pid in todo;
        flushed, writes := FlushStep(pid, S, todo, marks0, contents0, files0, flushed, writes);
        todo := todo - {pid};
      }
    }

    /** One turn of the flush loop: flushPage(pid) for a page pid still to do. */
    method FlushStep(pid: HeapPageId, ghost S: set<HeapPageId>, ghost todo: set<HeapPageId>,
                     ghost marks0: map<HeapPageId, Option<TransactionId>>, ghost contents0: map<HeapPageId, PageImage>,
                     ghost files0: map<int, FileState>, ghost flushed: seq<HeapPageId>, ghost writes: seq<PageWrite>)
      returns (ghost flushed': seq<HeapPageId>, ghost writes': seq<PageWrite>)
      requires Valid() && pid in todo && todo <= S
      requires FlushProgress(S, todo, marks0, contents0, files0, flushed, writes)
      modifies disk, idToPage.Values
      ensures FlushProgress(S, todo - {pid}, marks0, contents0, files0, flushed', writes')
    {
      DirtyInStep(marks0, S, todo, pid);
      CleanedStep(marks0, S - todo, pid);
      assert S - (todo - {pid}) == (S - todo) + {pid};
      ghost var dirty := pid in DirtyIn(Marks(), {pid});
      assert dirty <==> pid in marks0 && marks0[pid].Some?;
      FlushPage(pid);
      flushed', writes' := flushed, writes;
      if dirty {
        var w := WriteOf(pid, contents0[pid]);
        WriteAllSnoc(files0, writes, w);
        ListsOnceStep(flushed, DirtyIn(marks0, S - todo), pid);
        flushed', writes' := flushed + [pid], writes + [w];
      }
    }

    /** flushAllPages(): every cached page is flushed; the cache keeps its pages. */
    method FlushAllPages() returns (ghost flushed: seq<HeapPageId>, ghost writes: seq<PageWrite>)
      requires Valid()
      modifies disk, idToPage.Values
      ensures Valid() && idToPage == old(idToPage)
      ensures FlushProgress(idToPage.Keys, {}, old(Marks()), old(Contents()), old(disk.files), flushed, writes)
      ensures forall p :: p in idToPage ==> idToPage[p].dirtier.None? && idToPage[p].tuples == old(idToPage[p].tuples)
    {
      var pids := idToPage.Keys;
      flushed, writes := FlushEach(pids);
      forall p | p in idToPage
        ensures idToPage[p].dirtier.None? && idToPage[p].tuples == old(idToPage[p].tuples)
      {
        assert Marks()[p] == idToPage[p].dirtier;
        assert Contents()[p] == idToPage[p].tuples;
      }
    }

    /** discardPage(pid): the entry goes, dirty or not, without being written. */
    method DiscardPage(pid: HeapPageId)
      requires Valid()
      modifies this`idToPage
      ensures Valid() && idToPage == old(idToPage) - {pid}
    {
      idToPage := idToPage - {pid};
    }

    /** The abort half of transactionComplete's loop: each dirty cached page of S is
        discarded; clean or uncached ones stay as they are. */
    method DiscardEach(S: set<HeapPageId>)
      requires Valid()
      modifies this`idToPage
      ensures Valid() && idToPage == old(idToPage) - DirtyIn(old(Marks()), S)
    {
      var todo := S;
      while todo != {}
        invariant todo <= S && Valid()
        invariant idToPage == old(idToPage) - DirtyIn(old(Marks()), S - todo)
        decreases todo
      {
        var pid :| pid in todo;
        if pid in idToPage && idToPage[pid].dirtier.Some? {
          DiscardPage(pid);
        }
        todo := todo - {pid};
      }
    }

    /** The cache, pages and files after the loop of transactionComplete over the
        locked pages S, from cache0 with markers marks0, data contents0 and files files0:
        on commit the dirty ones were flushed (written once each, in the order of
        `flushed`) and all of S is clean; on abort the dirty ones were dropped. */
    ghost predicate Completed(commit: bool, S: set<HeapPageId>, cache0: map<HeapPageId, HeapPage>,
                              marks0: map<HeapPageId, Option<TransactionId>>, contents0: map<HeapPageId, PageImage>,
                              files0: map<int, FileState>, flushed: seq<HeapPageId>, writes: seq<PageWrite>)
      reads this, idToPage.Values, disk
    {
      var D := DirtyIn(marks0, S);
      if commit then
        idToPage == cache0 && FlushProgress(S, {}, marks0, contents0, files0, flushed, writes)
      else
        idToPage == cache0 - D && disk.files == files0 && flushed == [] && writes == [] &&
        forall p :: p in idToPage ==> p in marks0 && p in contents0 && idToPage[p].dirtier == marks0[p] && idToPage[p].tuples == contents0[p]
    }

    /** The loop of transactionComplete over the locked pages S. */
    method CompletePages(S: set<HeapPageId>, commit: bool) returns (ghost flushed: seq<HeapPageId>, ghost writes: seq<PageWrite>)
      requires Valid()
      modifies this`idToPage, disk, idToPage.Values
      ensures Valid()
      ensures Completed(commit, S, old(idToPage), old(Marks()), old(Contents()), old(disk.files), flushed, writes)
    {
      if commit {
        flushed, writes := FlushEach(S);
      } else {
        flushed, writes := [], [];
        DiscardEach(S);
      }
    }

    /** transactionComplete(tid, commit): with no lock set nothing happens. Otherwise
        the dirty cached pages tid locked are written back and marked clean (commit) or
        dropped from the cache (abort), and then every lock of tid is released. */
    method TransactionComplete(tid: TransactionId, commit: bool)
      returns (ghost flushed: seq<HeapPageId>, ghost writes: seq<PageWrite>)
      requires Valid()
      modifies this`idToPage, disk, idToPage.Values, lockManager, lockManager.dependencyGraph
      ensures Valid()
      ensures tid !in old(lockManager.txIdToPageIds) ==>
                idToPage == old(idToPage) && disk.files == old(disk.files) && flushed == [] && writes == [] &&
                Marks() == old(Marks()) && Contents() == old(Contents()) &&
                lockManager.pageIdToLocks == old(lockManager.pageIdToLocks) &&
                lockManager.txIdToPageIds == old(lockManager.txIdToPageIds) &&
                lockManager.dependencyGraph.blockingMe == old(lockManager.dependencyGraph.blockingMe)
      ensures tid in old(lockManager.txIdToPageIds) ==>
                var S := old(lockManager.txIdToPageIds)[tid];
                Completed(commit, S, old(idToPage), old(Marks()), old(Contents()), old(disk.files), flushed, writes) &&
                lockManager.txIdToPageIds == old(lockManager.txIdToPageIds) - {tid} &&
                lockManager.pageIdToLocks == UnlockedAll(old(lockManager.pageIdToLocks), tid, S) &&
                Edges(lockManager.dependencyGraph.blockingMe) ==
                  ReleasedEdges(Edges(old(lockManager.dependencyGraph.blockingMe)), tid, S) &&
                forall p :: !HasRecord(PageLocks(lockManager.pageIdToLocks, p), tid)
    {
      flushed, writes := [], [];
      var lockedPageIds := lockManager.GetPagesLockedByTx(tid);
      if lockedPageIds.None? {
        return;
      }
      flushed, writes := CompleteAndUnlock(tid, lockedPageIds.value, commit);
    }

    /** transactionComplete once tid's lock set S is known: the loop, then unlockAllPages. */
    method CompleteAndUnlock(tid: TransactionId, S: set<HeapPageId>, commit: bool)
      returns (ghost flushed: seq<HeapPageId>, ghost writes: seq<PageWrite>)
      requires Valid() && tid in lockManager.txIdToPageIds && S == lockManager.txIdToPageIds[tid]
      modifies this`idToPage, disk, idToPage.Values, lockManager, lockManager.dependencyGraph
      ensures Valid()
      ensures Completed(commit, S, old(idToPage), old(Marks()), old(Contents()), old(disk.files), flushed, writes)
      ensures lockManager.txIdToPageIds == old(lockManager.txIdToPageIds) - {tid}
      ensures lockManager.pageIdToLocks == UnlockedAll(old(lockManager.pageIdToLocks), tid, S)
      ensures Edges(lockManager.dependencyGraph.blockingMe) ==
                ReleasedEdges(Edges(old(lockManager.dependencyGraph.blockingMe)), tid, S)
      ensures forall p :: !HasRecord(PageLocks(lockManager.pageIdToLocks, p), tid)
    {
      flushed, writes := CompletePages(S, commit);
      lockManager.UnlockAllPages(tid);
    }

    /** transactionComplete(tid): a commit. */
    method Commit(tid: TransactionId) returns (ghost flushed: seq<HeapPageId>, ghost writes: seq<PageWrite>)
      requires Valid()
      modifies this`idToPage, disk, idToPage.Values, lockManager, lockManager.dependencyGraph
      ensures Valid() && idToPage == old(idToPage)
      ensures var S := if tid in old(lockManager.txIdToPageIds) then old(lockManager.txIdToPageIds)[tid] else {};
              FlushProgress(S, {}, old(Marks()), old(Contents()), old(disk.files), flushed, writes)
      ensures lockManager.txIdToPageIds == old(lockManager.txIdToPageIds) - {tid}
      ensures var S := if tid in old(lockManager.txIdToPageIds) then old(lockManager.txIdToPageIds)[tid] else {};
              lockManager.pageIdToLocks == UnlockedAll(old(lockManager.pageIdToLocks), tid, S) &&
              Edges(lockManager.dependencyGraph.blockingMe) ==
                ReleasedEdges(Edges(old(lockManager.dependencyGraph.blockingMe)), tid, S)
    {
      ghost var marks0, contents0 := Marks(), Contents();
      flushed, writes := TransactionComplete(tid, true);
      if tid !in old(lockManager.txIdToPageIds) {
        assert Cleaned(marks0, {}) == marks0;
        UnlockedAllNone(lockManager.pageIdToLocks, tid, {});
        ReleasedEdgesNone(Edges(lockManager.dependencyGraph.blockingMe), tid, {});
      }
    }

    /** flushPages(tid): a stub that does nothing. */
    method FlushPages(tid: TransactionId)
      requires Valid()
      ensures Valid()
    {
    }
  }

  /** A flushed page no other flushed page of its table shares an offset with is on
      disk afterwards holding the data it was flushed with. */
  lemma FlushedPageOnDisk(files: map<int, FileState>, flushed: seq<HeapPageId>, writes: seq<PageWrite>, k: nat)
    requires |writes| == |flushed| && k < |flushed|
    requires Placed(writes) && forall i :: 0 <= i < |writes| ==> writes[i] == WriteOf(flushed[i], writes[i].data)
    requires forall i :: 0 <= i < |flushed| && i != k ==>
               flushed[i].tableId != flushed[k].tableId || Offset(flushed[i].pageNum) != Offset(flushed[k].pageNum)
    ensures ImageOf(WriteAll(files, writes), flushed[k].tableId, Offset(flushed[k].pageNum)) == writes[k].data
  {
    OnlyWriteLands(files, writes, k);
  }

  /** In a file of fewer than 2^19 pages distinct pages never share an offset, so every
      page of a flush lands. */
  lemma SmallFilesDoNotCollide(a: HeapPageId, b: HeapPageId)
    requires a != b && a.tableId == b.tableId
    requires 0 <= a.pageNum <= MAX_PAGE_NO && 0 <= b.pageNum <= MAX_PAGE_NO
    ensures Offset(a.pageNum) != Offset(b.pageNum)
  {
    if a.pageNum < b.pageNum {
      OffsetsDisjoint(a.pageNum, b.pageNum);
    } else {
      OffsetsDisjoint(b.pageNum, a.pageNum);
    }
  }
}
