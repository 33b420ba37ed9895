/** Heap pages, the files that hold them, and the page I/O of a heap file: page n of a
    table lives at byte offset n * PAGE_SIZE of the table's file. */
module HeapStorage {
  import opened JavaLang
  import opened PageIds
  import opened TransactionIds
  import opened TupleDescs
  import opened Tuples

  /** BufferPool.PAGE_SIZE: the bytes of one page. */
  const PAGE_SIZE: int := 4096

  /** The last page number whose int byte offset does not overflow. */
  const MAX_PAGE_NO: int := INT_MAX / PAGE_SIZE

  // ---------------------------------------------------------------------------
  // Pages

  /** What getPageData() writes and new HeapPage(pid, data) reads back: the page's
      tuples in slot order. A page of zero bytes holds none. */
  type PageImage = seq<Row>

  /** The first occurrence of t taken out of s: one copy of t fewer, the rest in order. */
  function RemoveFirst(s: seq<Row>, t: Row): (r: seq<Row>)
    requires t in s
    ensures |r| == |s| - 1 && multiset(r) == multiset(s) - multiset{t}
  {
    if s[0] == t then
      assert s == [s[0]] + s[1..];
      s[1..]
    else
      assert s == [s[0]] + s[1..];
      [s[0]] + RemoveFirst(s[1..], t)
  }

  /** A heap page as the buffer pool and the heap file use it: a fixed number of tuple
      slots and the transaction that last dirtied it. HeapPage itself is not part of
      this model; its slots are kept as the list of stored tuples. */
  class HeapPage {
    const pid: HeapPageId
    const numSlots: nat
    var tuples: seq<Row>
    /** isDirty(): the dirtying transaction, or null when the page is clean. */
    var dirtier: Option<TransactionId>

    /** new HeapPage(pid, data): a clean page holding the tuples serialized in data. */
    constructor (pid: HeapPageId, numSlots: nat, data: PageImage)
      ensures this.pid == pid && this.numSlots == numSlots && tuples == data && dirtier.None?
    {
      this.pid := pid;
      this.numSlots := numSlots;
      tuples := data;
      dirtier := None;
    }

    /** getNumEmptySlots(). */
    function NumEmptySlots(): int
      reads this
    {
      numSlots - |tuples|
    }

    /** addTuple(t): t takes a free slot; a full page throws DbException. */
    method AddTuple(t: Row) returns (r: Result<()>)
      modifies this`tuples
      ensures r.Ok? <==> old(NumEmptySlots()) > 0
      ensures r.Ok? ==> tuples == old(tuples) + [t]
      ensures r.Err? ==> r.error == DbError && tuples == old(tuples)
    {
      if |tuples| >= numSlots {
        return Err(DbError);
      }
      tuples := tuples + [t];
      return Ok(());
    }

    /** deleteTuple(t): t's slot is emptied; a tuple not on the page throws DbException. */
    method DeleteTuple(t: Row) returns (r: Result<()>)
      modifies this`tuples
      ensures r.Ok? <==> t in old(tuples)
      ensures r.Ok? ==> tuples == RemoveFirst(old(tuples), t)
      ensures r.Err? ==> r.error == DbError && tuples == old(tuples)
    {
      if t !in tuples {
        return Err(DbError);
      }
      tuples := RemoveFirst(tuples, t);
      return Ok(());
    }

    /** markDirty(dirty, tid): the page remembers tid when dirty, and nothing otherwise. */
    method MarkDirty(dirty: bool, tid: Option<TransactionId>)
      modifies this`dirtier
      ensures dirtier == if dirty then tid else None
    {
      dirtier := if dirty then tid else None;
    }
  }

  // ---------------------------------------------------------------------------
  // Files

  /** A file's length in bytes and what is stored at each page-aligned byte offset. */
  datatype FileState = FileState(length: nat, images: map<int, PageImage>)

  const NO_FILE := FileState(0, map[])

  /** The file of table t: a missing file reads as empty (File.length() is 0). */
  function FileOf(files: map<int, FileState>, t: int): FileState {
    if t in files then files[t] else NO_FILE
  }

  /** The page read from byte offset o: bytes never written read as zeros, an empty page. */
  function ImageOf(files: map<int, FileState>, t: int, o: int): PageImage {
    var f := FileOf(files, t);
    if o in f.images then f.images[o] else []
  }

  /** The file system: the file of each table, by table id (a heap file's id is its
      file's). */
  class Disk {
    var files: map<int, FileState>

    constructor (files: map<int, FileState>)
      ensures this.files == files
    {
      this.files := files;
    }
  }

  /** The byte offset of page n, computed as the int product n * PAGE_SIZE. */
  function Offset(pageNum: int): (o: int)
    ensures IsInt(o) && o % PAGE_SIZE == 0
    ensures 0 <= pageNum <= MAX_PAGE_NO ==> o == pageNum * PAGE_SIZE
  {
    var x := pageNum * PAGE_SIZE;
    var o := Wrap(x);
    var q := (o - x) / TWO_32;
    assert o - x == TWO_32 * q;
    assert o == PAGE_SIZE * (pageNum + 0x10_0000 * q);
    o
  }

  /** Distinct pages of a file of fewer than 2^19 pages occupy disjoint byte ranges. */
  lemma OffsetsDisjoint(n: int, m: int)
    requires 0 <= n < m <= MAX_PAGE_NO
    ensures 0 <= Offset(n) && Offset(n) + PAGE_SIZE <= Offset(m)
  {
    assert n * PAGE_SIZE + PAGE_SIZE == (n + 1) * PAGE_SIZE <= m * PAGE_SIZE;
  }

  /** Page 2^19 already overflows: its offset is negative. */
  lemma FirstOverflowingPage()
    ensures Offset(MAX_PAGE_NO + 1) == INT_MIN
  {
    assert (MAX_PAGE_NO + 1) * PAGE_SIZE == INT_MAX + 1;
  }

  /** The file system after page data was written at byte offset o of table t's file: a
      file that did not exist is created, and one too short is extended. */
  function Written(files: map<int, FileState>, t: int, o: int, data: PageImage): map<int, FileState>
    requires o >= 0
  {
    var f := FileOf(files, t);
    files[t := FileState(if f.length >= o + PAGE_SIZE then f.length else o + PAGE_SIZE, f.images[o := data])]
  }

  /** Reading back what was written returns it; every other page of every file, and
      every other file's length, is as before, and the file reaches past the page. */
  lemma ReadAfterWrite(files: map<int, FileState>, t: int, o: int, data: PageImage, t': int, o': int)
    requires o >= 0
    ensures ImageOf(Written(files, t, o, data), t', o') == if t' == t && o' == o then data else ImageOf(files, t', o')
    ensures t' != t ==> FileOf(Written(files, t, o, data), t') == FileOf(files, t')
    ensures FileOf(Written(files, t, o, data), t).length >= o + PAGE_SIZE
    ensures FileOf(Written(files, t, o, data), t).length >= FileOf(files, t).length
  {
  }

  /** One page write of a buffer-pool flush: data at byte offset o of table t's file. */
  datatype PageWrite = PageWrite(tableId: int, offset: int, data: PageImage)

  /** Every write goes to a non-negative offset. */
  predicate Placed(ws: seq<PageWrite>) {
    forall i :: 0 <= i < |ws| ==> ws[i].offset >= 0
  }

  /** The file system after the writes, in order. */
  function WriteAll(files: map<int, FileState>, ws: seq<PageWrite>): map<int, FileState>
    requires Placed(ws)
  {
    if ws == [] then files
    else
      var w := ws[|ws| - 1];
      Written(WriteAll(files, ws[..|ws| - 1]), w.tableId, w.offset, w.data)
  }

  /** Appending one write to a sequence applies it last. */
  lemma WriteAllSnoc(files: map<int, FileState>, ws: seq<PageWrite>, w: PageWrite)
    requires Placed(ws)
    requires w.offset >= 0
    ensures WriteAll(files, ws + [w]) == Written(WriteAll(files, ws), w.tableId, w.offset, w.data)
  {
    assert (ws + [w])[..|ws|] == ws;
  }

  /** The data of the last write to offset o of table t's file, if any write went there. */
  function LastWriteTo(ws: seq<PageWrite>, t: int, o: int): Option<PageImage> {
    if ws == [] then None
    else if ws[|ws| - 1].tableId == t && ws[|ws| - 1].offset == o then Some(ws[|ws| - 1].data)
    else LastWriteTo(ws[..|ws| - 1], t, o)
  }

  /** After a sequence of writes, each page holds what was last written to it, and a
      page nobody wrote to holds what it held before. */
  lemma {:induction false} WriteAllImage(files: map<int, FileState>, ws: seq<PageWrite>, t: int, o: int)
    requires Placed(ws)
    ensures ImageOf(WriteAll(files, ws), t, o) ==
            match LastWriteTo(ws, t, o)
            case Some(data) => data
            case None => ImageOf(files, t, o)
  {
    if ws != [] {
      var w := ws[|ws| - 1];
      WriteAllImage(files, ws[..|ws| - 1], t, o);
      ReadAfterWrite(WriteAll(files, ws[..|ws| - 1]), w.tableId, w.offset, w.data, t, o);
    }
  }

  /** When only one write went to a page, the last write there is that one. */
  lemma {:induction false} LastWriteIsOnlyWrite(ws: seq<PageWrite>, k: nat)
    requires k < |ws|
    requires forall i :: 0 <= i < |ws| && i != k ==> (ws[i].tableId, ws[i].offset) != (ws[k].tableId, ws[k].offset)
    ensures LastWriteTo(ws, ws[k].tableId, ws[k].offset) == Some(ws[k].data)
  {
    if k < |ws| - 1 {
      LastWriteIsOnlyWrite(ws[..|ws| - 1], k);
    }
  }

  /** A write whose page no other write in the sequence goes to is what the file holds
      there afterwards. */
  lemma OnlyWriteLands(files: map<int, FileState>, ws: seq<PageWrite>, k: nat)
    requires Placed(ws)
    requires k < |ws|
    requires forall i :: 0 <= i < |ws| && i != k ==> (ws[i].tableId, ws[i].offset) != (ws[k].tableId, ws[k].offset)
    ensures ImageOf(WriteAll(files, ws), ws[k].tableId, ws[k].offset) == ws[k].data
  {
    WriteAllImage(files, ws, ws[k].tableId, ws[k].offset);
    LastWriteIsOnlyWrite(ws, k);
  }

  // ---------------------------------------------------------------------------
  // HeapFile

  /** A heap file: the table it stores (its id, the hash of its file's path), the
      table's schema, and how many tuples of that schema one page holds (computed by
      HeapPage, which is not part of this model). */
  datatype HeapFile = HeapFile(tableId: int, td: TupleDesc, slotsPerPage: nat) {

    /** numPages(): the long file length divided by PAGE_SIZE, which floors; Math.ceil
        then has nothing to round, and the cast to int saturates. */
    function NumPages(files: map<int, FileState>): (n: int)
      ensures 0 <= n <= INT_MAX
      ensures var len := FileOf(files, tableId).length;
              (len < (INT_MAX + 1) * PAGE_SIZE ==> n * PAGE_SIZE <= len < n * PAGE_SIZE + PAGE_SIZE) &&
              (len >= (INT_MAX + 1) * PAGE_SIZE ==> n == INT_MAX)
    {
      var len := FileOf(files, tableId).length;
      NatDivBounds(len, PAGE_SIZE);
      if len / PAGE_SIZE > INT_MAX then INT_MAX else len / PAGE_SIZE
    }

    /** readPage(pid): null for a null id; otherwise PAGE_SIZE bytes from the page's
        offset in this file. A missing file, or a negative (overflowed) offset, makes
        the stream throw, which ends in exit. */
    method ReadPage(disk: Disk, pid: Option<HeapPageId>) returns (r: Result<Option<HeapPage>>)
      ensures pid.None? ==> r == Ok(None)
      ensures pid.Some? && (tableId !in disk.files || Offset(pid.value.pageNum) < 0) ==> r == Err(ProcessExit)
      ensures pid.Some? && tableId in disk.files && Offset(pid.value.pageNum) >= 0 ==>
                r.Ok? && r.value.Some? && fresh(r.value.value) &&
                r.value.value.pid == pid.value && r.value.value.numSlots == slotsPerPage &&
                r.value.value.tuples == ImageOf(disk.files, tableId, Offset(pid.value.pageNum)) &&
                r.value.value.dirtier.None?
    {
      if pid.None? {
        return Ok(None);
      }
      var fileOffset := Offset(pid.value.pageNum);
      if tableId !in disk.files || fileOffset < 0 {
        return Err(ProcessExit);
      }
      var page := new HeapPage(pid.value, slotsPerPage, ImageOf(disk.files, tableId, fileOffset));
      return Ok(Some(page));
    }

    /** writePage(page): the page's data goes to its offset in this file (whatever table
        the page id names); a negative offset makes the seek throw, which ends in exit. */
    method WritePage(disk: Disk, page: HeapPage) returns (r: Result<()>)
      modifies disk
      ensures Offset(page.pid.pageNum) < 0 ==> r == Err(ProcessExit) && disk.files == old(disk.files)
      ensures Offset(page.pid.pageNum) >= 0 ==>
                r.Ok? && disk.files == Written(old(disk.files), tableId, Offset(page.pid.pageNum), page.tuples)
    {
      var fileOffset := Offset(page.pid.pageNum);
      if fileOffset < 0 {
        return Err(ProcessExit);
      }
      disk.files := Written(disk.files, tableId, fileOffset, page.tuples);
      return Ok(());
    }
  }

  /** A page appended at the end of a whole-page file is read back from there, and the
      file then has exactly one page more. */
  lemma AppendedPage(hf: HeapFile, files: map<int, FileState>, data: PageImage)
    requires var len := FileOf(files, hf.tableId).length;
             len % PAGE_SIZE == 0 && len / PAGE_SIZE <= MAX_PAGE_NO
    ensures var n := hf.NumPages(files);
            var after := Written(files, hf.tableId, Offset(n), data);
            hf.NumPages(after) == n + 1 && ImageOf(after, hf.tableId, Offset(n)) == data
  {
    var len := FileOf(files, hf.tableId).length;
    var n := hf.NumPages(files);
    NatDivBounds(len, PAGE_SIZE);
    assert n * PAGE_SIZE == len;
    var after := Written(files, hf.tableId, Offset(n), data);
    assert FileOf(after, hf.tableId).length == (n + 1) * PAGE_SIZE;
    var m := hf.NumPages(after);
    assert m * PAGE_SIZE <= (n + 1) * PAGE_SIZE < m * PAGE_SIZE + PAGE_SIZE;
    assert m <= n + 1 by {
      if m > n + 1 {
        MulGrows(n + 1, m);
      }
    }
    assert m >= n + 1 by {
      if m < n + 1 {
        MulGrows(m + 1, n + 1);
      }
    }
  }

  lemma MulGrows(a: int, b: int)
    requires 0 <= a <= b
    ensures a * PAGE_SIZE <= b * PAGE_SIZE
  {
  }
}
