/** The Insert operator: it hands every child tuple to the buffer pool for one table and
    reports how many it inserted, once. */
module Inserts {
  import opened JavaLang
  import opened Fields
  import opened TupleDescs
  import opened Tuples
  import opened TransactionIds
  import opened DbIterators

  /** The output schema: one INT column named "affected_rows". */
  const AFFECTED_ROWS: TupleDesc := TupleDesc([IntType], Some([Some("affected_rows")]))

  /** The one-field tuple holding an insert count. */
  function CountRow(count: int): (r: Row)
    ensures WellTyped(r) && r.td == AFFECTED_ROWS && r.fields == [Some(IntField(count))] && r.rid.None?
  {
    Row(AFFECTED_ROWS, [Some(IntField(count))], None)
  }

  /** Building the count tuple with new Tuple(td) and setField(0, new IntField(count))
      cannot fail and gives CountRow(count). */
  lemma CountRowBuilt(count: int)
    ensures SetFieldOf(EmptyRow(AFFECTED_ROWS), 0, Some(IntField(count))) == Ok(CountRow(count))
  {
    assert EmptyRow(AFFECTED_ROWS).fields[0 := Some(IntField(count))] == [Some(IntField(count))];
  }

  class Insert {
    const tid: TransactionId
    const child: LookAhead
    const tableid: int
    const td: TupleDesc := AFFECTED_ROWS
    var readNextCalled: bool
    /** The tuples handed to BufferPool.insertTuple(tid, tableid, t), in order; the buffer
        pool's insertion itself is not part of this model. */
    var inserted: seq<Row>

    ghost predicate Valid()
      reads this, child
    {
      child.Valid()
    }

    constructor (tid: TransactionId, child: LookAhead, tableid: int)
      requires child.Valid()
      ensures Valid() && this.tid == tid && this.child == child && this.tableid == tableid
      ensures td == AFFECTED_ROWS && !readNextCalled && inserted == []
    {
      this.tid := tid;
      this.child := child;
      this.tableid := tableid;
      readNextCalled := false;
      inserted := [];
    }

    /** readNext(): the first call inserts every tuple the child still hands out and
        returns their count as an int; every later call returns null and does nothing. */
    method ReadNext() returns (t: Option<Row>)
      requires Valid()
      modifies this`readNextCalled, this`inserted, child
      ensures Valid() && readNextCalled
      ensures old(readNextCalled) ==>
                t.None? && inserted == old(inserted) && child.Remaining() == old(child.Remaining())
      ensures !old(readNextCalled) ==>
                inserted == old(inserted) + old(child.Remaining()) && child.Remaining() == [] &&
                t == Some(CountRow(Wrap(|old(child.Remaining())|)))
    {
      if readNextCalled {
        return None;
      }
      readNextCalled := true;
      var insertCount := InsertAll();
      CountRowBuilt(insertCount);
      var retTuple := SetFieldOf(EmptyRow(td), 0, Some(IntField(insertCount)));
      return Some(retTuple.value);
    }

    /** The loop of readNext(): every tuple the child still hands out goes to the buffer
        pool, and insertCount, an int, counts them. */
    method InsertAll() returns (insertCount: int)
      requires Valid()
      modifies this`inserted, child
      ensures Valid()
      ensures inserted == old(inserted) + old(child.Remaining()) && child.Remaining() == []
      ensures insertCount == Wrap(|old(child.Remaining())|)
    {
      ghost var s := child.Remaining();
      insertCount := 0;
      var more := child.HasNext();
      while more
        invariant child.Valid()
        invariant more <==> child.Remaining() != []
        invariant inserted + child.Remaining() == old(inserted) + s && |old(inserted)| <= |inserted|
        invariant insertCount == Wrap(|inserted| - |old(inserted)|)
        decreases |child.Remaining()|
      {
        InsertNext();
        WrapAdd(|inserted| - 1 - |old(inserted)|, 1);
        insertCount := Wrap(insertCount + 1);
        more := child.HasNext();
      }
      assert inserted + child.Remaining() == inserted;
    }

    /** One turn of readNext()'s loop: the child's next tuple is inserted. */
    method InsertNext()
      requires Valid() && child.Remaining() != []
      modifies this`inserted, child
      ensures Valid()
      ensures inserted + child.Remaining() == old(inserted) + old(child.Remaining())
      ensures |inserted| == old(|inserted|) + 1 && |child.Remaining()| < old(|child.Remaining()|)
    {
      ghost var before, rest := inserted, child.Remaining();
      var next := child.Next();
      inserted := inserted + [next.value];
      MoveHead(before, rest);
    }

    /** open(): the child starts over. */
    method Open()
      requires Valid()
      modifies child
      ensures Valid() && child.Remaining() == old(child.Rewound())
    {
      child.Rewind();
    }

    /** rewind(): the child starts over and the next readNext inserts again. */
    method Rewind()
      requires Valid()
      modifies this`readNextCalled, child
      ensures Valid() && !readNextCalled && child.Remaining() == old(child.Rewound())
    {
      child.Rewind();
      readNextCalled := false;
    }

    /** close(): closes the child. */
    method Close()
      requires Valid()
      modifies child
      ensures Valid() && child.buffered.None? && child.pos == old(child.pos)
    {
      child.Close();
    }
  }
}
