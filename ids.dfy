/** Identity of a heap page: a (table, page number) pair, compared by value. */
module PageIds {
  import opened JavaLang

  datatype HeapPageId = HeapPageId(tableId: int, pageNum: int) {

    /** The `int[]` that serialize() returns: the arguments of the two-int constructor. */
    function Serialize(): (data: seq<int>)
      ensures |data| == 2
    {
      [tableId, pageNum]
    }

    /** equals(Object): true only for another HeapPageId naming the same table and page. */
    predicate Equals(o: PageIdArg) {
      o.PageIdRef? && tableId == o.id.tableId && pageNum == o.id.pageNum
    }
  }

  /** What HeapPageId.equals can be handed: null, a HeapPageId, or any other object. */
  datatype PageIdArg = NullRef | PageIdRef(id: HeapPageId) | OtherObject

  /** Rebuilding an id from its serialized form, as PageId's contract asks of every
      implementation (a constructor taking the serialized ints, in order). */
  function FromSerialized(data: seq<int>): (r: Option<HeapPageId>)
    ensures r.Some? <==> |data| == 2
    ensures r.Some? ==> r.value.Serialize() == data
  {
    if |data| == 2 then Some(HeapPageId(data[0], data[1])) else None
  }

  lemma SerializeRoundTrip(id: HeapPageId)
    ensures FromSerialized(id.Serialize()) == Some(id)
  {
  }

  /** equals agrees with value equality, and is false for null or another class. */
  lemma EqualsIsValueEquality(a: HeapPageId, o: PageIdArg)
    ensures a.Equals(o) <==> o == PageIdRef(a)
  {
  }
}

/** A reference to one tuple slot on one page. */
module RecordIds {
  import opened JavaLang
  import opened PageIds

  /** The page id is a Java reference and may be null. */
  datatype RecordId = RecordId(pid: Option<HeapPageId>, tupleNum: int) {

    /** equals(Object): null or another class gives false; otherwise the page ids are
        compared with HeapPageId.equals (which throws on this side's null page id)
        and the tuple numbers with ==. */
    function Equals(o: RecordIdArg): (r: Result<bool>)
      ensures r == Ok(true) <==> pid.Some? && o == RecordIdRef(this)
      ensures r.Err? <==> pid.None? && o.RecordIdRef?
      ensures !o.RecordIdRef? ==> r == Ok(false)
    {
      match o
      case RecordIdRef(other) =>
        if pid.None? then Err(NullPointer)
        else
          var otherPid := if other.pid.Some? then PageIdRef(other.pid.value) else PageIdArg.NullRef;
          Ok(pid.value.Equals(otherPid) && tupleNum == other.tupleNum)
      case _ => Ok(false)
    }
  }

  datatype RecordIdArg = NullRef | RecordIdRef(rid: RecordId) | OtherObject

  /** equals is reflexive for every record id whose page id is not null. */
  lemma EqualsReflexive(r: RecordId)
    requires r.pid.Some?
    ensures r.Equals(RecordIdRef(r)) == Ok(true)
  {
  }
}

/** Transaction identifiers: a long taken from a process-wide counter. */
module TransactionIds {
  import opened JavaLang

  datatype TransactionId = TransactionId(id: int) {

    /** equals casts its argument, so a null argument throws. */
    function Equals(other: Option<TransactionId>): (r: Result<bool>)
      ensures r.Err? <==> other.None?
      ensures r == Ok(true) <==> other == Some(this)
    {
      if other.None? then Err(NullPointer) else Ok(other.value.id == id)
    }

    /** hashCode is the id narrowed to an int. */
    function HashCode(): (h: int)
      ensures IsInt(h)
      ensures (h - id) % TWO_32 == 0
      ensures IsInt(id) ==> h == id
    {
      Wrap(id)
    }
  }

  /** The static AtomicLong counter shared by all TransactionId constructions. */
  class IdCounter {
    var counter: int
    /** Every id handed out so far. */
    ghost var issued: set<TransactionId>

    ghost predicate Valid()
      reads this
    {
      forall t :: t in issued ==> t.id < counter
    }

    constructor ()
      ensures Valid() && counter == 0 && issued == {}
    {
      counter := 0;
      issued := {};
    }

    /** new TransactionId(): takes the counter's value, then increments the counter. */
    method NewTransactionId() returns (t: TransactionId)
      requires Valid()
      modifies this
      ensures Valid()
      ensures t.id == old(counter) && counter == old(counter) + 1
      ensures t !in old(issued) && issued == old(issued) + {t}
      ensures forall u :: u in old(issued) ==> u.id < t.id
    {
      t := TransactionId(counter);
      counter := counter + 1;
      issued := issued + {t};
    }
  }

  /** Equal ids hash equally. */
  lemma HashCodeRespectsEquals(a: TransactionId, b: TransactionId)
    requires a.Equals(Some(b)) == Ok(true)
    ensures a.HashCode() == b.HashCode()
  {
  }
}
