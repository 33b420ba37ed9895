/** Tuples: a schema, a record id and an array of fields, each possibly unset. */
module Tuples {
  import opened JavaLang
  import opened RecordIds
  import opened Fields
  import opened TupleDescs

  /** A tuple's contents as a value: what the operators pass from child to parent. */
  datatype Row = Row(td: TupleDesc, fields: seq<Option<Field>>, rid: Option<RecordId>)

  /** One field slot per column, and every set field of its column's type (setField's
      check keeps this true). */
  ghost predicate WellTyped(row: Row) {
    |row.fields| == |row.td.types| &&
    forall i :: 0 <= i < |row.fields| && row.fields[i].Some? ==> TypeOf(row.fields[i].value) == row.td.types[i]
  }

  /** One field slot per column, which every tuple has (its array is made numFields() long). */
  predicate Sized(row: Row) {
    |row.fields| == |row.td.types|
  }

  predicate AllSized(rows: seq<Row>) {
    forall i :: 0 <= i < |rows| ==> Sized(rows[i])
  }

  lemma AllSizedSnoc(rows: seq<Row>, row: Row)
    requires AllSized(rows) && Sized(row)
    ensures AllSized(rows + [row])
  {
    assert forall i :: 0 <= i < |rows| ==> (rows + [row])[i] == rows[i];
  }

  lemma AllSizedTail(rows: seq<Row>)
    requires AllSized(rows) && rows != []
    ensures Sized(rows[0]) && AllSized(rows[1..])
  {
    assert forall i :: 0 <= i < |rows| - 1 ==> rows[1..][i] == rows[i + 1];
  }

  /** Moving the head of one list onto the end of another keeps their concatenation. */
  lemma MoveHead(front: seq<Row>, back: seq<Row>)
    requires back != []
    ensures (front + [back[0]]) + back[1..] == front + back
  {
    assert back == [back[0]] + back[1..];
  }

  /** A fresh tuple: every field unset, no record id. */
  function EmptyRow(td: TupleDesc): (r: Row)
    ensures WellTyped(r) && r.td == td && r.rid.None?
    ensures forall i :: 0 <= i < |r.fields| ==> r.fields[i].None?
  {
    Row(td, seq(|td.types|, _ => None), None)
  }

  /** setField(i, f) on the value: an index at or past numFields() and a type mismatch
      throw NoSuchElementException, a negative index fails in getType's array access,
      and a null field fails on f.getType(); otherwise only field i changes. */
  function SetFieldOf(row: Row, i: int, f: Option<Field>): (r: Result<Row>)
    requires |row.fields| == |row.td.types|
    ensures r.Ok? <==> 0 <= i < |row.td.types| && f.Some? && TypeOf(f.value) == row.td.types[i]
    ensures r.Err? ==> r.error == (if i >= |row.td.types| then NoSuchElement
                                   else if i < 0 then IndexOutOfBounds
                                   else if f.None? then NullPointer
                                   else NoSuchElement)
    ensures r.Ok? ==> r.value.td == row.td && r.value.rid == row.rid &&
                      |r.value.fields| == |row.fields| && r.value.fields[i] == f &&
                      forall j :: 0 <= j < |row.fields| && j != i ==> r.value.fields[j] == row.fields[j]
    ensures r.Ok? && WellTyped(row) ==> WellTyped(r.value)
  {
    if i >= |row.td.types| then Err(NoSuchElement)
    else if i < 0 then Err(IndexOutOfBounds)
    else if f.None? then Err(NullPointer)
    else if TypeOf(f.value) != row.td.types[i] then Err(NoSuchElement)
    else Ok(row.(fields := row.fields[i := f]))
  }

  /** getField(i): NoSuchElementException at or past numFields(), an array-index failure
      below zero, otherwise the field (null when unset). */
  function GetFieldOf(row: Row, i: int): (r: Result<Option<Field>>)
    requires |row.fields| == |row.td.types|
    ensures r.Ok? <==> 0 <= i < |row.td.types|
    ensures r.Ok? ==> r.value == row.fields[i]
    ensures r.Err? ==> r.error == (if i >= |row.td.types| then NoSuchElement else IndexOutOfBounds)
  {
    if i >= |row.td.types| then Err(NoSuchElement)
    else if i < 0 then Err(IndexOutOfBounds)
    else Ok(row.fields[i])
  }

  /** getField after a successful setField returns the value set at that index and the
      old value everywhere else. */
  lemma GetAfterSet(row: Row, i: int, f: Option<Field>, j: int)
    requires |row.fields| == |row.td.types| && SetFieldOf(row, i, f).Ok?
    ensures GetFieldOf(SetFieldOf(row, i, f).value, j) == if j == i then Ok(f) else GetFieldOf(row, j)
  {
  }

  /** A tuple's text: every field's text followed by a tab, then a newline; `show` is
      the fields' toString, which is not part of this model. */
  function FieldsText(fields: seq<Option<Field>>, show: Field -> string): (r: Result<string>)
    ensures r.Ok? <==> forall i :: 0 <= i < |fields| ==> fields[i].Some?
  {
    if |fields| == 0 then Ok("")
    else
      var prefix := FieldsText(fields[..|fields| - 1], show);
      var last := fields[|fields| - 1];
      if prefix.Err? then prefix
      else if last.None? then Err(NullPointer)
      else Ok(prefix.value + show(last.value) + "\t")
  }

  class Tuple {
    const td: TupleDesc
    var rId: Option<RecordId>
    const fields: array<Option<Field>>

    function Value(): Row
      reads this, fields
    {
      Row(td, fields[..], rId)
    }

    ghost predicate Valid()
      reads this, fields
    {
      fields.Length == |td.types| && WellTyped(Value())
    }

    /** new Tuple(td): numFields() unset fields and no record id. */
    constructor (td: TupleDesc)
      ensures Valid() && Value() == EmptyRow(td) && fresh(fields)
    {
      this.td := td;
      this.rId := None;
      this.fields := new Option<Field>[|td.types|](_ => None);
      new;
      assert fields[..] == EmptyRow(td).fields;
    }

    function GetRecordId(): Option<RecordId>
      reads this
    {
      rId
    }

    /** setRecordId(rid): getRecordId returns it from now on; the fields are untouched. */
    method SetRecordId(rid: Option<RecordId>)
      requires Valid()
      modifies this
      ensures Valid() && GetRecordId() == rid && Value() == old(Value()).(rid := rid)
    {
      rId := rid;
    }

    /** setField(i, f): writes slot i of the array when SetFieldOf allows it, and
        otherwise throws what SetFieldOf says, changing nothing. */
    method SetField(i: int, f: Option<Field>) returns (r: Result<()>)
      requires Valid()
      modifies fields
      ensures Valid()
      ensures r.Ok? <==> SetFieldOf(old(Value()), i, f).Ok?
      ensures r.Ok? ==> Value() == SetFieldOf(old(Value()), i, f).value
      ensures r.Err? ==> r.error == SetFieldOf(old(Value()), i, f).error && Value() == old(Value())
    {
      if i >= |td.types| {
        return Err(NoSuchElement);
      }
      if i < 0 {
        return Err(IndexOutOfBounds);
      }
      if f.None? {
        return Err(NullPointer);
      }
      if TypeOf(f.value) != td.types[i] {
        return Err(NoSuchElement);
      }
      fields[i] := f;
      assert fields[..] == old(fields[..])[i := f];
      return Ok(());
    }

    /** getField(i). */
    method GetField(i: int) returns (r: Result<Option<Field>>)
      requires Valid()
      ensures r == GetFieldOf(Value(), i)
    {
      if i >= |td.types| {
        return Err(NoSuchElement);
      }
      if i < 0 {
        return Err(IndexOutOfBounds);
      }
      return Ok(fields[i]);
    }

    /** toString(): each field's text and a tab, then a newline; an unset field throws. */
    method ToString(show: Field -> string) returns (r: Result<string>)
      requires Valid()
      ensures r.Ok? <==> FieldsText(fields[..], show).Ok?
      ensures r.Ok? ==> r.value == FieldsText(fields[..], show).value + "\n"
      ensures r.Err? ==> r.error == NullPointer
    {
      var retVal := "";
      for x := 0 to fields.Length
        invariant FieldsText(fields[..x], show) == Ok(retVal)
      {
        assert fields[..x + 1][..x] == fields[..x];
        var f := fields[x];
        if f.None? {
          return Err(NullPointer);
        }
        retVal := retVal + show(f.value) + "\t";
      }
      assert fields[..fields.Length] == fields[..];
      return Ok(retVal + "\n");
    }
  }

  /** Every field is set. */
  predicate AllSet(fields: seq<Option<Field>>) {
    forall k :: 0 <= k < |fields| ==> fields[k].Some?
  }

  /** The copy loops of combine: setField(offset + k, src[k]) for each k in turn, stopping
      at the first unset (null) field, which setField throws on. */
  method CopyFields(dst: Tuple, src: seq<Option<Field>>, offset: nat) returns (ok: bool)
    requires dst.Valid() && offset + |src| <= dst.fields.Length
    requires forall k :: 0 <= k < |src| && src[k].Some? ==> TypeOf(src[k].value) == dst.td.types[offset + k]
    modifies dst.fields
    ensures dst.Valid()
    ensures ok <==> AllSet(src)
    ensures ok ==> dst.fields[..] == old(dst.fields[..])[..offset] + src + old(dst.fields[..])[offset + |src|..]
  {
    for x := 0 to |src|
      invariant dst.Valid()
      invariant forall k :: 0 <= k < x ==> src[k].Some?
      invariant forall k :: 0 <= k < dst.fields.Length ==>
                  dst.fields[k] == if offset <= k < offset + x then src[k - offset] else old(dst.fields[k])
    {
      var r := dst.SetField(offset + x, src[x]);
      if r.Err? {
        return false;
      }
    }
    assert forall k :: 0 <= k < dst.fields.Length ==>
      dst.fields[k] == (old(dst.fields[..])[..offset] + src + old(dst.fields[..])[offset + |src|..])[k];
    return true;
  }

  /** Tuple.combine(t1, t2): a new tuple of the combined schema whose fields are t1's
      followed by t2's; the combined schema's own failure comes first, and an unset
      field makes setField throw on the null. */
  method Combine(t1: Tuple, t2: Tuple) returns (r: Result<Tuple>)
    requires t1.Valid() && t2.Valid()
    ensures Combined(t1.td, t2.td).Err? ==> r == Err(Combined(t1.td, t2.td).error)
    ensures Combined(t1.td, t2.td).Ok? ==> (r.Ok? <==> AllSet(t1.fields[..]) && AllSet(t2.fields[..]))
    ensures r.Err? && Combined(t1.td, t2.td).Ok? ==> r.error == NullPointer
    ensures r.Ok? ==> fresh(r.value) && fresh(r.value.fields) && r.value.Valid() &&
                      r.value.Value() == Row(Combined(t1.td, t2.td).value, t1.fields[..] + t2.fields[..], None)
  {
    var newTd := TupleDescs.Combine(t1.td, t2.td);
    if newTd.Err? {
      return Err(newTd.error);
    }
    var n1 := t1.fields.Length;
    var s1, s2 := t1.fields[..], t2.fields[..];
    ghost var types := newTd.value.types;
    assert types == t1.td.types + t2.td.types;
    assert forall k :: 0 <= k < |s2| ==> types[n1 + k] == t2.td.types[k];
    var newT := new Tuple(newTd.value);
    var ok := CopyFields(newT, s1, 0);
    if !ok {
      return Err(NullPointer);
    }
    ghost var mid := newT.fields[..];
    assert mid[..n1] == s1;
    ok := CopyFields(newT, s2, n1);
    if !ok {
      return Err(NullPointer);
    }
    assert newT.fields[..] == s1 + s2;
    return Ok(newT);
  }
}
