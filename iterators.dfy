/** The iterator protocol every operator follows: a one-tuple look-ahead buffer in front
    of the operator's own readNext. */
module DbIterators {
  import opened JavaLang
  import opened TupleDescs
  import opened Tuples

  /** An AbstractDbIterator. What its readNext returns, call after call, is the sequence
      `rows` from the start, then null; `pos` counts the tuples readNext has returned, and
      `buffered` is the look-ahead slot (`next` in the Java class) and `td` what
      getTupleDesc returns. The operators hold their children as instances of this class. */
  class LookAhead {
    const td: TupleDesc
    const rows: seq<Row>
    var pos: nat
    var buffered: Option<Row>

    ghost predicate Valid()
      reads this
    {
      pos <= |rows| && (buffered.Some? ==> buffered.value in rows)
    }

    /** The tuples next() still hands out, in order: the buffered one, then those
        readNext has not returned yet. */
    ghost function Remaining(): seq<Row>
      requires Valid()
      reads this
    {
      (if buffered.Some? then [buffered.value] else []) + rows[pos..]
    }

    /** The tuples next() hands out after the child is opened or rewound: the buffered
        one, which survives, then every tuple from the start. */
    ghost function Rewound(): seq<Row>
      requires Valid()
      reads this
    {
      (if buffered.Some? then [buffered.value] else []) + rows
    }

    /** Every tuple the stream hands out is one of rows, so one field slot per column
        there means the same for everything it hands out. */
    lemma SizedStream()
      requires Valid() && AllSized(rows)
      ensures AllSized(Remaining()) && AllSized(Rewound())
    {
      var pre := if buffered.Some? then [buffered.value] else [];
      assert forall i :: 0 <= i < |pre| ==> pre[i] in rows;
      assert forall i :: pos <= i < |rows| ==> rows[i] == rows[pos..][i - pos];
    }

    constructor (td: TupleDesc, rows: seq<Row>)
      ensures Valid() && this.td == td && this.rows == rows && pos == 0 && buffered.None?
      ensures Remaining() == rows
    {
      this.td := td;
      this.rows := rows;
      pos := 0;
      buffered := None;
    }

    /** readNext: the next tuple of the stream, or null once it is exhausted. */
    method ReadNext() returns (t: Option<Row>)
      requires Valid()
      modifies this`pos
      ensures Valid()
      ensures old(pos) < |rows| ==> t == Some(rows[old(pos)]) && pos == old(pos) + 1
      ensures old(pos) == |rows| ==> t.None? && pos == old(pos)
    {
      if pos < |rows| {
        t := Some(rows[pos]);
        pos := pos + 1;
      } else {
        t := None;
      }
    }

    /** hasNext(): fills the buffer from readNext only when it is empty, so any number of
        calls consume at most one tuple; the tuples still to come are unchanged. */
    method HasNext() returns (b: bool)
      requires Valid()
      modifies this
      ensures Valid()
      ensures Remaining() == old(Remaining())
      ensures b <==> Remaining() != []
      ensures b <==> buffered.Some?
      ensures old(buffered).Some? ==> pos == old(pos) && buffered == old(buffered)
      ensures old(buffered).None? ==> pos <= old(pos) + 1
    {
      if buffered.None? {
        buffered := ReadNext();
      }
      b := buffered.Some?;
    }

    /** next(): the buffered tuple if there is one, otherwise the one readNext returns;
        NoSuchElementException when there is none. The buffer is empty afterwards. */
    method Next() returns (r: Result<Row>)
      requires Valid()
      modifies this
      ensures Valid() && buffered.None?
      ensures r.Ok? <==> old(Remaining()) != []
      ensures r.Ok? ==> r.value == old(Remaining())[0] && Remaining() == old(Remaining())[1..]
      ensures r.Err? ==> r.error == NoSuchElement && Remaining() == []
      ensures old(buffered).Some? ==> r == Ok(old(buffered).value) && pos == old(pos)
    {
      if buffered.None? {
        buffered := ReadNext();
        if buffered.None? {
          return Err(NoSuchElement);
        }
      }
      r := Ok(buffered.value);
      buffered := None;
    }

    /** close(): drops the buffered tuple, so that a later next() does not return it. */
    method Close()
      requires Valid()
      modifies this`buffered
      ensures Valid() && buffered.None?
      ensures Remaining() == rows[pos..]
    {
      buffered := None;
    }

    /** A child's open() or rewind(): its readNext starts over from the first tuple. The
        look-ahead buffer belongs to AbstractDbIterator, which neither touches. */
    method Rewind()
      requires Valid()
      modifies this`pos
      ensures Valid() && pos == 0
      ensures Remaining() == old(Rewound())
    {
      pos := 0;
    }
  }
}
