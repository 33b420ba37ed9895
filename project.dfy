/** The Project operator: a relational projection of its child's tuples onto a list of
    child columns. */
module Projects {
  import opened JavaLang
  import opened Fields
  import opened TupleDescs
  import opened Tuples
  import opened DbIterators

  // ---------------------------------------------------------------------------
  // The projected schema

  /** The first index of fieldList whose child column name cannot be read, or |fieldList|. */
  function FirstBadName(childTd: TupleDesc, fieldList: seq<int>, i: nat): (n: nat)
    requires i <= |fieldList|
    decreases |fieldList| - i
    ensures i <= n <= |fieldList|
    ensures forall j :: i <= j < n ==> GetFieldName(childTd, fieldList[j]).Ok?
    ensures n < |fieldList| ==> GetFieldName(childTd, fieldList[n]).Err?
  {
    if i == |fieldList| then i
    else if GetFieldName(childTd, fieldList[i]).Err? then i
    else FirstBadName(childTd, fieldList, i + 1)
  }

  lemma FirstBadNameIs(childTd: TupleDesc, fieldList: seq<int>, i: nat)
    requires i <= |fieldList|
    requires forall j :: 0 <= j < i ==> GetFieldName(childTd, fieldList[j]).Ok?
    requires i < |fieldList| ==> GetFieldName(childTd, fieldList[i]).Err?
    ensures FirstBadName(childTd, fieldList, 0) == i
  {
  }

  class Project {
    const child: LookAhead
    const outFieldIds: seq<int>
    const td: TupleDesc

    ghost predicate Valid()
      reads this, child
    {
      child.Valid() && AllSized(child.rows)
    }

    constructor (fieldList: seq<int>, td: TupleDesc, child: LookAhead)
      ensures this.outFieldIds == fieldList && this.td == td && this.child == child
    {
      this.child := child;
      outFieldIds := fieldList;
      this.td := td;
    }

    /** readNext(): the next child tuple projected onto the output schema, keeping its
        record id; null when the child has no more tuples. */
    method ReadNext() returns (r: Result<Option<Row>>)
      requires Valid()
      modifies child
      ensures Valid()
      ensures old(child.Remaining()) == [] ==> r == Ok(None) && child.Remaining() == []
      ensures old(child.Remaining()) != [] ==>
                child.Remaining() == old(child.Remaining())[1..] &&
                var p := ProjectRow(td, outFieldIds, old(child.Remaining())[0]);
                r == (if p.Err? then Err(p.error) else Ok(Some(p.value)))
    {
      child.SizedStream();
      var more := child.HasNext();
      if !more {
        return Ok(None);
      }
      var next := child.Next();
      var t := next.value;
      var newTuple := EmptyRow(td).(rid := t.rid);
      for i := 0 to |td.types|
        invariant newTuple.td == td && newTuple.rid == t.rid && |newTuple.fields| == |td.types|
        invariant forall j :: 0 <= j < i ==>
                    ColumnFits(td, outFieldIds, t, j) && newTuple.fields[j] == t.fields[outFieldIds[j]]
        invariant forall j :: i <= j < |td.types| ==> newTuple.fields[j].None?
      {
        if i >= |outFieldIds| {
          FirstColumnErrorIs(td, outFieldIds, t, i);
          return Err(IndexOutOfBounds);
        }
        var f := GetFieldOf(t, outFieldIds[i]);
        if f.Err? {
          FirstColumnErrorIs(td, outFieldIds, t, i);
          return Err(f.error);
        }
        var stored := SetFieldOf(newTuple, i, f.value);
        if stored.Err? {
          FirstColumnErrorIs(td, outFieldIds, t, i);
          return Err(stored.error);
        }
        newTuple := stored.value;
      }
      FirstColumnErrorIs(td, outFieldIds, t, |td.types|);
      ProjectedFieldsAt(td, outFieldIds, t, |td.types|);
      assert newTuple.fields == ProjectedFields(td, outFieldIds, t, |td.types|);
      return Ok(Some(newTuple));
    }

    /** open() and rewind(): the child starts over. */
    method Rewind()
      requires Valid()
      modifies child
      ensures Valid() && child.Remaining() == old(child.Rewound())
    {
      child.Rewind();
    }

    /** close(): closes the child; this operator's own look-ahead is left as it is. */
    method Close()
      requires Valid()
      modifies child
      ensures Valid() && child.buffered.None? && child.pos == old(child.pos)
    {
      child.Close();
    }
  }

  /** new Project(fieldList, typesList, child): output column i is named as the child's
      column fieldList[i] and typed typesList[i]. Reading a name can throw, the first
      failing one wins; no types at all ends in exit. */
  method NewProject(fieldList: seq<int>, typesList: seq<FieldType>, child: LookAhead) returns (r: Result<Project>)
    ensures var bad := FirstBadName(child.td, fieldList, 0);
            (bad < |fieldList| ==> r == Err(GetFieldName(child.td, fieldList[bad]).error)) &&
            (bad == |fieldList| && |typesList| < 1 ==> r == Err(ProcessExit)) &&
            (bad == |fieldList| && |typesList| >= 1 ==> r.Ok?)
    ensures r.Ok? ==> fresh(r.value) && r.value.child == child && r.value.outFieldIds == fieldList &&
                      r.value.td.types == typesList && r.value.td.names.Some? &&
                      |r.value.td.names.value| == |fieldList| &&
                      forall i :: 0 <= i < |fieldList| ==>
                        r.value.td.names.value[i] == GetFieldName(child.td, fieldList[i]).value
  {
    var fieldAr: seq<Option<string>> := [];
    for i := 0 to |fieldList|
      invariant |fieldAr| == i
      invariant forall j :: 0 <= j < i ==> GetFieldName(child.td, fieldList[j]) == Ok(fieldAr[j])
    {
      var name := GetFieldName(child.td, fieldList[i]);
      if name.Err? {
        FirstBadNameIs(child.td, fieldList, i);
        return Err(name.error);
      }
      fieldAr := fieldAr + [name.value];
    }
    FirstBadNameIs(child.td, fieldList, |fieldList|);
    var td := NewTupleDesc(typesList, Some(fieldAr));
    if td.Err? {
      return Err(td.error);
    }
    var p := new Project(fieldList, td.value, child);
    return Ok(p);
  }

  // ---------------------------------------------------------------------------
  // The projected tuple

  /** Output column i can be filled from child tuple t: its id exists, names a set child
      field, and that field has the output column's type. */
  predicate ColumnFits(td: TupleDesc, ids: seq<int>, t: Row, i: nat)
    requires i < |td.types|
  {
    i < |ids| && 0 <= ids[i] < |t.fields| && t.fields[ids[i]].Some? &&
    TypeOf(t.fields[ids[i]].value) == td.types[i]
  }

  /** What goes wrong filling output column i from child tuple t, if anything: the id
      list is too short, the child column cannot be read, it is null (setField calls
      getType on it), or its type is not the output column's. */
  function ColumnError(td: TupleDesc, ids: seq<int>, t: Row, i: nat): (e: Option<Thrown>)
    requires Sized(t) && i < |td.types|
    ensures e.None? <==> ColumnFits(td, ids, t, i)
  {
    if i >= |ids| then Some(IndexOutOfBounds)
    else
      var f := GetFieldOf(t, ids[i]);
      if f.Err? then Some(f.error)
      else if f.value.None? then Some(NullPointer)
      else if TypeOf(f.value.value) != td.types[i] then Some(NoSuchElement)
      else None
  }

  /** The first failing output column's problem, scanning from column i. */
  function FirstColumnError(td: TupleDesc, ids: seq<int>, t: Row, i: nat): (e: Option<Thrown>)
    requires Sized(t) && i <= |td.types|
    decreases |td.types| - i
    ensures e.None? <==> forall j :: i <= j < |td.types| ==> ColumnFits(td, ids, t, j)
  {
    if i == |td.types| then None
    else if ColumnError(td, ids, t, i).Some? then ColumnError(td, ids, t, i)
    else FirstColumnError(td, ids, t, i + 1)
  }

  lemma {:induction false} FirstColumnErrorFrom(td: TupleDesc, ids: seq<int>, t: Row, k: nat, i: nat)
    requires Sized(t) && k <= i <= |td.types|
    requires forall j :: k <= j < i ==> ColumnFits(td, ids, t, j)
    ensures FirstColumnError(td, ids, t, k) == FirstColumnError(td, ids, t, i)
    decreases i - k
  {
    if k < i {
      FirstColumnErrorFrom(td, ids, t, k + 1, i);
    }
  }

  /** With columns before i all fine, the first error is column i's (none past the end). */
  lemma FirstColumnErrorIs(td: TupleDesc, ids: seq<int>, t: Row, i: nat)
    requires Sized(t) && i <= |td.types|
    requires forall j :: 0 <= j < i ==> ColumnFits(td, ids, t, j)
    ensures i == |td.types| ==> FirstColumnError(td, ids, t, 0).None?
    ensures i < |td.types| && ColumnError(td, ids, t, i).Some? ==>
              FirstColumnError(td, ids, t, 0) == ColumnError(td, ids, t, i)
  {
    FirstColumnErrorFrom(td, ids, t, 0, i);
  }

  /** The child's fields at the first n ids. */
  function ProjectedFields(td: TupleDesc, ids: seq<int>, t: Row, n: nat): (fs: seq<Option<Field>>)
    requires n <= |td.types| && forall j :: 0 <= j < n ==> ColumnFits(td, ids, t, j)
    ensures |fs| == n
  {
    if n == 0 then []
    else
      assert ColumnFits(td, ids, t, n - 1);
      ProjectedFields(td, ids, t, n - 1) + [t.fields[ids[n - 1]]]
  }

  lemma {:induction false} ProjectedFieldsAt(td: TupleDesc, ids: seq<int>, t: Row, n: nat)
    requires n <= |td.types| && forall j :: 0 <= j < n ==> ColumnFits(td, ids, t, j)
    ensures forall j :: 0 <= j < n ==> ColumnFits(td, ids, t, j) && ProjectedFields(td, ids, t, n)[j] == t.fields[ids[j]]
  {
    if n > 0 {
      ProjectedFieldsAt(td, ids, t, n - 1);
    }
  }

  /** The output tuple for child tuple t: the first failing column's exception, or a
      tuple of schema td holding the child's fields at ids, with t's record id. */
  function ProjectRow(td: TupleDesc, ids: seq<int>, t: Row): Result<Row>
    requires Sized(t)
  {
    var e := FirstColumnError(td, ids, t, 0);
    if e.Some? then Err(e.value)
    else Ok(Row(td, ProjectedFields(td, ids, t, |td.types|), t.rid))
  }

  /** A projected tuple is well typed, keeps the record id, and holds in column i the
      child's field at ids[i]; it exists exactly when every column can be filled. */
  lemma ProjectRowMeaning(td: TupleDesc, ids: seq<int>, t: Row)
    requires Sized(t)
    ensures ProjectRow(td, ids, t).Ok? <==> forall i :: 0 <= i < |td.types| ==> ColumnFits(td, ids, t, i)
    ensures var p := ProjectRow(td, ids, t);
            p.Ok? ==> WellTyped(p.value) && p.value.td == td && p.value.rid == t.rid &&
                      |p.value.fields| == |td.types| &&
                      forall i :: 0 <= i < |td.types| ==> ColumnFits(td, ids, t, i) && p.value.fields[i] == t.fields[ids[i]]
  {
    if ProjectRow(td, ids, t).Ok? {
      ProjectedFieldsAt(td, ids, t, |td.types|);
    }
  }
}
