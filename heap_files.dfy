/** HeapFile's operations that go through the buffer pool: adding a tuple to the
    first page with room (or to a new page at the end of the file), deleting a tuple
    from the page its record id names, BufferPool's insertTuple and deleteTuple on top
    of them, and the iterator that walks a file's pages in order. */
module HeapFiles {
  import opened JavaLang
  import opened PageIds
  import opened RecordIds
  import opened TransactionIds
  import opened Tuples
  import opened LockTables
  import opened LockManagers
  import opened HeapStorage
  import opened BufferPools

  /** The pages of a table scanned before a page with room was found: pages 0, 1, ...
      in order, each full, and tid holds no lock on any of them any more. */
  ghost predicate ScannedFull(bp: BufferPool, tid: TransactionId, tableId: int, full: seq<HeapPage>)
    reads bp, bp.lockManager, full
  {
    forall i :: 0 <= i < |full| ==>
      full[i].pid == HeapPageId(tableId, i) && full[i].NumEmptySlots() <= 0 &&
      !HasRecord(PageLocks(bp.lockManager.pageIdToLocks, full[i].pid), tid)
  }

  /** t is the last of the tuples s: where addTuple puts a tuple in a page. */
  predicate LastIs(s: seq<Row>, t: Row) {
    |s| > 0 && s[|s| - 1] == t
  }

  /** getPage(tid, pid, perm) as the heap file relies on it: on success the page is
      the one cached under pid and tid's lock on it covers perm; other pages' locks,
      the pages' data and the files stay as they were, and the cache only gains new
      pages. */
  method LockedPage(bp: BufferPool, tid: TransactionId, pid: HeapPageId, perm: Option<Permissions>)
    returns (r: Result<HeapPage>)
    requires bp.Valid()
    modifies bp`idToPage, bp.lockManager, bp.lockManager.dependencyGraph
    ensures bp.Valid()
    ensures r.Ok? ==> pid in bp.idToPage && bp.idToPage[pid] == r.value && r.value.pid == pid &&
                      Covers(HeldType(PageLocks(bp.lockManager.pageIdToLocks, pid), tid), Exclusive(perm))
    ensures r.Err? ==> r.error in {LockWait, TransactionAborted, NullPointer, DbError, ProcessExit}
    ensures forall q :: q in bp.idToPage ==> bp.idToPage[q] in old(bp.idToPage.Values) || fresh(bp.idToPage[q])
    ensures forall q :: q != pid ==> PageLocks(bp.lockManager.pageIdToLocks, q) == PageLocks(old(bp.lockManager.pageIdToLocks), q)
  {
    ghost var ev;
    r, ev := bp.GetPage(tid, pid, perm);
  }

  /** addTuple(tid, t): pages 0 .. numPages()-1 are read in turn; the first with an
      empty slot is asked for again for writing, gets t and is marked dirty by tid; a
      full page's lock is released at once. When every page is full a new page is
      made at page number numPages(), gets t and is written to the end of the file
      directly (it is not cached and not marked dirty). A refused or aborted lock, a
      full cache and an exit from getPage end the call; so does addTuple on a page
      whose slot count is zero (DbException) or a write that ends in exit. */
  method AddTuple(hf: HeapFile, bp: BufferPool, tid: TransactionId, t: Row)
    returns (r: Result<seq<HeapPage>>, ghost full: seq<HeapPage>)
    requires bp.Valid()
    modifies bp`idToPage, bp.lockManager, bp.lockManager.dependencyGraph, bp.disk, bp.idToPage.Values
    ensures bp.Valid()
    ensures ScannedFull(bp, tid, hf.tableId, full)
    ensures r.Ok? ==> |r.value| == 1 && r.value[0].pid.tableId == hf.tableId &&
                      LastIs(r.value[0].tuples, t)
    ensures var n := old(hf.NumPages(bp.disk.files));
            r.Ok? && r.value[0].pid.pageNum < n ==>
              r.value[0].pid.pageNum == |full| &&
              r.value[0].pid in bp.idToPage && bp.idToPage[r.value[0].pid] == r.value[0] &&
              r.value[0].dirtier == Some(tid) &&
              Covers(HeldType(PageLocks(bp.lockManager.pageIdToLocks, r.value[0].pid), tid), true) &&
              bp.disk.files == old(bp.disk.files)
    ensures var n := old(hf.NumPages(bp.disk.files));
            r.Ok? && r.value[0].pid.pageNum >= n ==>
              |full| == n && r.value[0].pid == HeapPageId(hf.tableId, n) && fresh(r.value[0]) &&
              r.value[0].tuples == [t] && r.value[0].dirtier.None? && Offset(n) >= 0 &&
              bp.disk.files == Written(old(bp.disk.files), hf.tableId, Offset(n), [t]) &&
              ImageOf(bp.disk.files, hf.tableId, Offset(n)) == [t]
    ensures var n := old(hf.NumPages(bp.disk.files));
            var len := old(FileOf(bp.disk.files, hf.tableId).length);
            r.Ok? && r.value[0].pid.pageNum >= n && len % PAGE_SIZE == 0 && len / PAGE_SIZE <= MAX_PAGE_NO ==>
              hf.NumPages(bp.disk.files) == n + 1
    ensures r.Err? ==> r.error in {LockWait, TransactionAborted, NullPointer, DbError, ProcessExit}
  {
    var numPages := hf.NumPages(bp.disk.files);
    var found;
    found, full := ScanPages(hf, bp, tid, t, numPages);
    if found.Some? {
      return found.value, full;
    }
    r := AppendPage(hf, bp, t);
  }

  /** The loop of addTuple over pages 0 .. numPages-1: Some(outcome) once a page with
      room was found or getPage failed; None when every page was full. */
  method ScanPages(hf: HeapFile, bp: BufferPool, tid: TransactionId, t: Row, numPages: int)
    returns (found: Option<Result<seq<HeapPage>>>, ghost full: seq<HeapPage>)
    requires bp.Valid() && numPages >= 0
    modifies bp`idToPage, bp.lockManager, bp.lockManager.dependencyGraph, bp.idToPage.Values
    ensures bp.Valid()
    ensures ScannedFull(bp, tid, hf.tableId, full)
    ensures found.None? ==> |full| == numPages
    ensures found.Some? && found.value.Ok? ==> |found.value.value| == 1
    ensures found.Some? && found.value.Ok? ==>
              var page := found.value.value[0];
              page.pid == HeapPageId(hf.tableId, |full|) && |full| < numPages &&
              page.pid in bp.idToPage && bp.idToPage[page.pid] == page && page.dirtier == Some(tid) &&
              LastIs(page.tuples, t) &&
              Covers(HeldType(PageLocks(bp.lockManager.pageIdToLocks, page.pid), tid), true)
    ensures found.Some? && found.value.Err? ==> found.value.error in {LockWait, TransactionAborted, NullPointer, DbError, ProcessExit}
  {
    full := [];
    var p := 0;
    while p < numPages
      invariant bp.Valid() && 0 <= p <= numPages && |full| == p
      invariant ScannedFull(bp, tid, hf.tableId, full)
      invariant forall q :: q in bp.idToPage ==> bp.idToPage[q] in old(bp.idToPage.Values) || fresh(bp.idToPage[q])
    {
      found, full := ScanStep(bp, tid, HeapPageId(hf.tableId, p), t, full);
      if found.Some? {
        return;
      }
      p := p + 1;
    }
    return None, full;
  }

  /** One turn of addTuple's loop, on page pid (the next page to look at). */
  method ScanStep(bp: BufferPool, tid: TransactionId, pid: HeapPageId, t: Row, ghost full: seq<HeapPage>)
    returns (found: Option<Result<seq<HeapPage>>>, ghost full': seq<HeapPage>)
    requires bp.Valid() && pid.pageNum == |full|
    requires ScannedFull(bp, tid, pid.tableId, full)
    modifies bp`idToPage, bp.lockManager, bp.lockManager.dependencyGraph, bp.idToPage.Values
    ensures bp.Valid()
    ensures ScannedFull(bp, tid, pid.tableId, full')
    ensures forall q :: q in bp.idToPage ==> bp.idToPage[q] in old(bp.idToPage.Values) || fresh(bp.idToPage[q])
    ensures found.None? ==> |full'| == |full| + 1
    ensures found.Some? ==> full' == full
    ensures found.Some? && found.value.Ok? ==> |found.value.value| == 1
    ensures found.Some? && found.value.Ok? ==>
              var page := found.value.value[0];
              page.pid == pid &&
              page.pid in bp.idToPage && bp.idToPage[page.pid] == page && page.dirtier == Some(tid) &&
              LastIs(page.tuples, t) &&
              Covers(HeldType(PageLocks(bp.lockManager.pageIdToLocks, page.pid), tid), true)
    ensures found.Some? && found.value.Err? ==> found.value.error in {LockWait, TransactionAborted, NullPointer, DbError, ProcessExit}
  {
    full' := full;
    var hp := LockedPage(bp, tid, pid, Some(ReadOnly));
    if hp.Err? {
      return Some(Err(hp.error)), full';
    }
    if hp.value.NumEmptySlots() > 0 {
      var r := AddToPage(bp, tid, pid, t, full);
      return Some(r), full';
    }
    full' := full + [hp.value];
    ReleaseFull(bp, tid, hp.value, full);
    return None, full';
  }

  /** The full page that ends one turn of addTuple's loop: its lock is released. */
  method ReleaseFull(bp: BufferPool, tid: TransactionId, page: HeapPage, ghost full: seq<HeapPage>)
    requires bp.Valid() && page.pid.pageNum == |full| && page.NumEmptySlots() <= 0
    requires ScannedFull(bp, tid, page.pid.tableId, full)
    modifies bp.lockManager, bp.lockManager.dependencyGraph
    ensures bp.Valid() && ScannedFull(bp, tid, page.pid.tableId, full + [page])
  {
    bp.ReleasePage(tid, page.pid);
  }

  /** The end of addTuple when no page had room: a new page numbered numPages() gets t
      and is written at its offset in the file. */
  method AppendPage(hf: HeapFile, bp: BufferPool, t: Row) returns (r: Result<seq<HeapPage>>)
    modifies bp.disk
    ensures var n := old(hf.NumPages(bp.disk.files));
            r.Ok? ==> |r.value| == 1 && r.value[0].pid == HeapPageId(hf.tableId, n) && fresh(r.value[0]) &&
                      r.value[0].tuples == [t] && r.value[0].dirtier.None? && Offset(n) >= 0 &&
                      bp.disk.files == Written(old(bp.disk.files), hf.tableId, Offset(n), [t])
    ensures var n := old(hf.NumPages(bp.disk.files));
            r.Ok? ==> ImageOf(bp.disk.files, hf.tableId, Offset(n)) == [t]
    ensures var n := old(hf.NumPages(bp.disk.files));
            var len := old(FileOf(bp.disk.files, hf.tableId).length);
            r.Ok? && len % PAGE_SIZE == 0 && len / PAGE_SIZE <= MAX_PAGE_NO ==> hf.NumPages(bp.disk.files) == n + 1
    ensures r.Err? ==> r.error in {DbError, ProcessExit} && bp.disk.files == old(bp.disk.files)
  {
    var synchronizedNumPages := hf.NumPages(bp.disk.files);
    var newPageId := HeapPageId(hf.tableId, synchronizedNumPages);
    var newPage := new HeapPage(newPageId, hf.slotsPerPage, []);
    var added := newPage.AddTuple(t);
    if added.Err? {
      return Err(added.error);
    }
    ghost var files0 := bp.disk.files;
    var written := hf.WritePage(bp.disk, newPage);
    if written.Err? {
      return Err(written.error);
    }
    ReadAfterWrite(files0, hf.tableId, Offset(synchronizedNumPages), [t], hf.tableId, Offset(synchronizedNumPages));
    var len := FileOf(files0, hf.tableId).length;
    if len % PAGE_SIZE == 0 && len / PAGE_SIZE <= MAX_PAGE_NO {
      AppendedPage(hf, files0, [t]);
    }
    return Ok([newPage]);
  }

  /** The branch of addTuple that found room on page pid: the page is asked for
      again with READ_WRITE, gets t and is marked dirty by tid. */
  method AddToPage(bp: BufferPool, tid: TransactionId, pid: HeapPageId, t: Row, ghost full: seq<HeapPage>)
    returns (r: Result<seq<HeapPage>>)
    requires bp.Valid() && pid.pageNum == |full|
    requires ScannedFull(bp, tid, pid.tableId, full)
    modifies bp`idToPage, bp.lockManager, bp.lockManager.dependencyGraph, bp.idToPage.Values
    ensures bp.Valid() && ScannedFull(bp, tid, pid.tableId, full)
    ensures forall q :: q in bp.idToPage ==> bp.idToPage[q] in old(bp.idToPage.Values) || fresh(bp.idToPage[q])
    ensures r.Ok? ==> |r.value| == 1 && r.value[0].pid == pid &&
                      pid in bp.idToPage && bp.idToPage[pid] == r.value[0] &&
                      r.value[0].dirtier == Some(tid) &&
                      LastIs(r.value[0].tuples, t) &&
                      Covers(HeldType(PageLocks(bp.lockManager.pageIdToLocks, pid), tid), true)
    ensures r.Err? ==> r.error in {LockWait, TransactionAborted, NullPointer, DbError, ProcessExit}
  {
    var hp := LockedPage(bp, tid, pid, Some(ReadWrite));
    if hp.Err? {
      return Err(hp.error);
    }
    var page := hp.value;
    var added := page.AddTuple(t);
    if added.Err? {
      return Err(added.error);
    }
    page.MarkDirty(true, Some(tid));
    return Ok([page]);
  }

  /** deleteTuple(tid, t): the page t's record id names is asked for with READ_WRITE
      (from whatever table it belongs to), loses t and is marked dirty by tid. A
      tuple without a record id throws NullPointerException; a record id without a
      page id ends in exit when getPage looks up its table; a page that does not hold
      t throws DbException. `held` is what the page held when getPage returned it. */
  method DeleteTuple(bp: BufferPool, tid: TransactionId, t: Row) returns (r: Result<HeapPage>, ghost held: PageImage)
    requires bp.Valid()
    modifies bp`idToPage, bp.lockManager, bp.lockManager.dependencyGraph, bp.idToPage.Values
    ensures bp.Valid()
    ensures t.rid.None? ==> r == Err(NullPointer)
    ensures t.rid.Some? && t.rid.value.pid.None? ==> r == Err(ProcessExit)
    ensures r.Ok? ==> t.rid.Some? && t.rid.value.pid == Some(r.value.pid) &&
                      r.value.pid in bp.idToPage && bp.idToPage[r.value.pid] == r.value &&
                      t in held && r.value.tuples == RemoveFirst(held, t) && r.value.dirtier == Some(tid) &&
                      Covers(HeldType(PageLocks(bp.lockManager.pageIdToLocks, r.value.pid), tid), true)
    ensures r.Ok? && r.value in old(bp.idToPage.Values) ==> held == old(r.value.tuples)
    ensures r.Err? ==> r.error in {NullPointer, LockWait, TransactionAborted, DbError, ProcessExit}
  {
    held := [];
    if t.rid.None? {
      return Err(NullPointer), held;
    }
    if t.rid.value.pid.None? {
      return Err(ProcessExit), held;
    }
    var pid := t.rid.value.pid.value;
    var hp := LockedPage(bp, tid, pid, Some(ReadWrite));
    if hp.Err? {
      return Err(hp.error), held;
    }
    var page := hp.value;
    held := page.tuples;
    var deleted := page.DeleteTuple(t);
    if deleted.Err? {
      return Err(deleted.error), held;
    }
    page.MarkDirty(true, Some(tid));
    return Ok(page), held;
  }

  /** BufferPool.insertTuple(tid, tableId, t): the catalog's file for tableId adds t
      (Catalog is not part of this model: an unknown id throws NoSuchElementException,
      as Catalog.getDbFile does). `page` is the page addTuple returned. */
  method InsertTuple(bp: BufferPool, tid: TransactionId, tableId: int, t: Row)
    returns (r: Result<()>, ghost page: HeapPage?)
    requires bp.Valid()
    modifies bp`idToPage, bp.lockManager, bp.lockManager.dependencyGraph, bp.disk, bp.idToPage.Values
    ensures bp.Valid()
    ensures tableId !in bp.catalog ==> r == Err(NoSuchElement) && bp.idToPage == old(bp.idToPage) &&
                                       bp.disk.files == old(bp.disk.files)
    ensures r.Ok? ==> tableId in bp.catalog && page != null && page.pid.tableId == tableId &&
                      LastIs(page.tuples, t) &&
                      ((page.pid in bp.idToPage && bp.idToPage[page.pid] == page && page.dirtier == Some(tid)) ||
                       ImageOf(bp.disk.files, tableId, Offset(page.pid.pageNum)) == page.tuples)
    ensures r.Err? ==> r.error in {NoSuchElement, LockWait, TransactionAborted, NullPointer, DbError, ProcessExit}
  {
    page := null;
    if tableId !in bp.catalog {
      return Err(NoSuchElement), page;
    }
    var hf := bp.catalog[tableId];
    var added, full := AddTuple(hf, bp, tid, t);
    if added.Err? {
      return Err(added.error), page;
    }
    page := added.value[0];
    return Ok(()), page;
  }

  /** BufferPool.deleteTuple(tid, t): the file of the table t's record id names
      deletes t; a missing record id or page id throws NullPointerException first,
      and an unknown table NoSuchElementException. */
  method PoolDeleteTuple(bp: BufferPool, tid: TransactionId, t: Row) returns (r: Result<()>, ghost page: HeapPage?)
    requires bp.Valid()
    modifies bp`idToPage, bp.lockManager, bp.lockManager.dependencyGraph, bp.idToPage.Values
    ensures bp.Valid()
    ensures t.rid.None? || t.rid.value.pid.None? ==> r == Err(NullPointer)
    ensures t.rid.Some? && t.rid.value.pid.Some? && t.rid.value.pid.value.tableId !in bp.catalog ==> r == Err(NoSuchElement)
    ensures r.Ok? ==> page != null && t.rid.Some? && t.rid.value.pid == Some(page.pid) &&
                      page.pid in bp.idToPage && bp.idToPage[page.pid] == page && page.dirtier == Some(tid)
    ensures r.Ok? && page in old(bp.idToPage.Values) ==>
              t in old(page.tuples) && page.tuples == RemoveFirst(old(page.tuples), t)
    ensures r.Err? ==> r.error in {NullPointer, NoSuchElement, LockWait, TransactionAborted, DbError, ProcessExit}
  {
    page := null;
    if t.rid.None? || t.rid.value.pid.None? {
      return Err(NullPointer), page;
    }
    var tableId := t.rid.value.pid.value.tableId;
    if tableId !in bp.catalog {
      return Err(NoSuchElement), page;
    }
    var deleted, held := DeleteTuple(bp, tid, t);
    if deleted.Err? {
      return Err(deleted.error), page;
    }
    page := deleted.value;
    return Ok(()), page;
  }

  /** HeapFile.HeapFileIterator: the current page and what is left of its tuples
      (null and empty before open and after close). The transaction and the file are
      kept after close. */
  class HeapFileIterator {
    var hp: HeapPage?
    var it: seq<Row>
    const tid: TransactionId
    const tableId: int
    const hf: HeapFile
    const bp: BufferPool

    ghost predicate Valid()
      reads this, bp, bp.lockManager, bp.lockManager.dependencyGraph
    {
      bp.Valid() && tableId == hf.tableId && (hp == null ==> it == [])
    }

    /** new HeapFileIterator(tid, hf), as HeapFile.iterator(tid) makes it. */
    constructor (tid: TransactionId, hf: HeapFile, bp: BufferPool)
      requires bp.Valid()
      ensures Valid() && this.tid == tid && this.hf == hf && this.bp == bp && tableId == hf.tableId
      ensures hp == null && it == []
    {
      this.tableId := hf.tableId;
      this.tid := tid;
      this.hf := hf;
      this.bp := bp;
      hp := null;
      it := [];
    }

    /** open(): page 0 of the table is fetched with a null permission (a shared
        lock), and its tuples are the ones to return; a failing getPage leaves the
        iterator as it was. */
    method Open() returns (r: Result<()>)
      requires Valid()
      modifies this, bp`idToPage, bp.lockManager, bp.lockManager.dependencyGraph
      ensures Valid()
      ensures r.Ok? ==> hp != null && hp.pid == HeapPageId(tableId, 0) && it == hp.tuples &&
                        hp.pid in bp.idToPage && bp.idToPage[hp.pid] == hp &&
                        HasRecord(PageLocks(bp.lockManager.pageIdToLocks, hp.pid), tid)
      ensures r.Err? ==> hp == old(hp) && it == old(it) && r.error in {LockWait, TransactionAborted, NullPointer, DbError, ProcessExit}
    {
      var pId := HeapPageId(tableId, 0);
      var page := LockedPage(bp, tid, pId, None);
      if page.Err? {
        return Err(page.error);
      }
      hp := page.value;
      it := hp.tuples;
      return Ok(());
    }

    /** hasNext(): false when closed or never opened; true while the current page
        has tuples left; otherwise the following pages are fetched (READ_ONLY) one
        at a time up to page numPages()-1, stopping at the first that has tuples.
        Any exception from getPage ends in exit. `visited` are the pages fetched,
        in order: each but the last is empty, and the last is the current page. */
    method HasNext() returns (r: Result<bool>, ghost visited: seq<HeapPage>)
      requires Valid()
      modifies this, bp`idToPage, bp.lockManager, bp.lockManager.dependencyGraph
      ensures Valid()
      ensures old(hp) == null ==> r == Ok(false) && hp == null && visited == []
      ensures old(hp) != null && old(it) != [] ==> r == Ok(true) && hp == old(hp) && it == old(it) && visited == []
      ensures old(hp) != null && old(it) == [] ==>
                hp != null &&
                (forall i :: 0 <= i < |visited| ==> visited[i].pid == HeapPageId(tableId, old(hp.pid.pageNum) + 1 + i)) &&
                (forall i :: 0 <= i < |visited| - 1 ==> visited[i].tuples == []) &&
                (visited == [] ==> hp == old(hp) && it == []) &&
                (visited != [] ==> hp == visited[|visited| - 1] && it == hp.tuples)
      ensures r == Ok(true) ==> hp != null && it != []
      ensures r == Ok(false) ==> hp == null || (it == [] && hp.pid.pageNum >= hf.NumPages(bp.disk.files) - 1)
      ensures r.Err? ==> r.error in {LockWait, ProcessExit}
    {
      visited := [];
      if hp == null {
        return Ok(false), visited;
      }
      if it != [] {
        return Ok(true), visited;
      }
      ghost var start := hp.pid.pageNum;
      while hp.pid.pageNum < hf.NumPages(bp.disk.files) - 1
        invariant Valid() && hp != null && it == []
        invariant hp.pid.pageNum == start + |visited|
        invariant forall i :: 0 <= i < |visited| ==> visited[i].pid == HeapPageId(tableId, start + 1 + i) && visited[i].tuples == []
        invariant visited == [] ==> hp == old(hp)
        invariant visited != [] ==> hp == visited[|visited| - 1]
        decreases hf.NumPages(bp.disk.files) - hp.pid.pageNum
      {
        var fetched := NextPage();
        if fetched.Err? {
          return Err(fetched.error), visited;
        }
        visited := visited + [hp];
        if it != [] {
          return Ok(true), visited;
        }
      }
      return Ok(false), visited;
    }

    /** One turn of hasNext()'s loop: the page after the current one, READ_ONLY,
        becomes the current page; an exception from getPage ends in exit. */
    method NextPage() returns (r: Result<()>)
      requires Valid() && hp != null
      modifies this, bp`idToPage, bp.lockManager, bp.lockManager.dependencyGraph
      ensures Valid()
      ensures r.Ok? ==> hp != null && hp.pid == HeapPageId(tableId, old(hp.pid.pageNum) + 1) && it == hp.tuples
      ensures r.Err? ==> hp == old(hp) && it == old(it) && r.error in {LockWait, ProcessExit}
    {
      var pId := HeapPageId(tableId, hp.pid.pageNum + 1);
      var page := LockedPage(bp, tid, pId, Some(ReadOnly));
      if page.Err? {
        return Err(if page.error == LockWait then LockWait else ProcessExit);
      }
      hp := page.value;
      it := hp.tuples;
      return Ok(());
    }

    /** next(): the next tuple, after hasNext(); NoSuchElementException when there is
        none. (Its `return null` branch cannot be reached: hasNext() returning true
        leaves tuples to return.) */
    method Next() returns (r: Result<Row>)
      requires Valid()
      modifies this, bp`idToPage, bp.lockManager, bp.lockManager.dependencyGraph
      ensures Valid()
      ensures r.Ok? ==> hp != null && (old(it) != [] ==> hp == old(hp) && [r.value] + it == old(it)) &&
                        (old(it) == [] ==> [r.value] + it == hp.tuples)
      ensures r == Err(NoSuchElement) ==> hp == null || (it == [] && hp.pid.pageNum >= hf.NumPages(bp.disk.files) - 1)
      ensures old(hp) == null ==> r == Err(NoSuchElement)
      ensures r.Err? ==> r.error in {NoSuchElement, LockWait, ProcessExit}
    {
      var more, visited := HasNext();
      if more.Err? {
        return Err(more.error);
      }
      if !more.value {
        return Err(NoSuchElement);
      }
      var x := it[0];
      it := it[1..];
      return Ok(x);
    }

    /** rewind(): open() again. */
    method Rewind() returns (r: Result<()>)
      requires Valid()
      modifies this, bp`idToPage, bp.lockManager, bp.lockManager.dependencyGraph
      ensures Valid()
      ensures r.Ok? ==> hp != null && hp.pid == HeapPageId(tableId, 0) && it == hp.tuples
      ensures r.Err? ==> hp == old(hp) && it == old(it)
    {
      r := Open();
    }

    /** close(): no current page and nothing left to return. */
    method Close()
      requires Valid()
      modifies this
      ensures Valid() && hp == null && it == []
    {
      hp := null;
      it := [];
    }
  }
}
