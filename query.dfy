/** Query: runs the root operator of a plan for one transaction, refusing to hand out
    tuples before it is started. */
module Queries {
  import opened JavaLang
  import opened Tuples
  import opened TransactionIds
  import opened DbIterators

  class Query {
    const op: LookAhead
    const tid: TransactionId
    var started: bool

    ghost predicate Valid()
      reads this, op
    {
      op.Valid()
    }

    constructor (root: LookAhead, t: TransactionId)
      requires root.Valid()
      ensures Valid() && op == root && tid == t && !started
    {
      op := root;
      tid := t;
      started := false;
    }

    /** start(): opens the root operator, which starts over, and marks the query started. */
    method Start()
      requires Valid()
      modifies this`started, op
      ensures Valid() && started && op.Remaining() == old(op.Rewound())
    {
      op.Rewind();
      started := true;
    }

    /** hasNext(): asks the root, whether or not the query was started. */
    method HasNext() returns (b: bool)
      requires Valid()
      modifies op
      ensures Valid() && started == old(started)
      ensures b <==> op.Remaining() != []
      ensures op.Remaining() == old(op.Remaining())
    {
      b := op.HasNext();
    }

    /** next(): DbException before start, which leaves the root untouched; afterwards the
        root's next tuple, or NoSuchElementException when it has none. */
    method Next() returns (r: Result<Row>)
      requires Valid()
      modifies op
      ensures Valid() && started == old(started)
      ensures !started ==> r == Err(DbError) && op.Remaining() == old(op.Remaining())
      ensures started && old(op.Remaining()) != [] ==>
                r == Ok(old(op.Remaining())[0]) && op.Remaining() == old(op.Remaining())[1..]
      ensures started && old(op.Remaining()) == [] ==> r == Err(NoSuchElement)
    {
      if !started {
        return Err(DbError);
      }
      r := op.Next();
    }

    /** close(): closes the root and clears started. */
    method Close()
      requires Valid()
      modifies this`started, op
      ensures Valid() && !started && op.buffered.None? && op.pos == old(op.pos)
    {
      op.Close();
      started := false;
    }
  }
}
