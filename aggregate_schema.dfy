/** The static parts of the Aggregate operator: the names of the aggregates and the
    schema of an aggregate's output. */
module AggregateSchemas {
  import opened JavaLang
  import opened Fields
  import opened TupleDescs
  import opened Tuples
  import opened Aggregation

  /** Aggregate.aggName: the operator's lower-case name. */
  function AggName(op: Op): string
  {
    match op
    case MIN => "min"
    case MAX => "max"
    case AVG => "avg"
    case SUM => "sum"
    case COUNT => "count"
  }

  /** Different operators have different names. */
  lemma AggNameInjective(a: Op, b: Op)
    ensures AggName(a) == AggName(b) <==> a == b
  {
    if a != b {
      assert AggName(a)[0] != AggName(b)[0] || AggName(a)[1] != AggName(b)[1];
    }
  }

  /** Aggregate.createAggregateTupleDesc: the aggregate column alone when there is no
      group-by type, otherwise the group column and then the aggregate column; the names
      go in the same order. */
  function CreateAggregateTupleDesc(gbType: Option<FieldType>, aggName: Option<string>, gbName: Option<string>): (td: TupleDesc)
    ensures NamesFit(td)
    ensures NewTupleDesc(td.types, td.names) == Ok(td)
    ensures gbType.None? ==> td.types == [IntType] && td.names == Some([aggName])
    ensures gbType.Some? ==> td.types == [gbType.value, IntType] && td.names == Some([gbName, aggName])
  {
    var types := if gbType.None? then [IntType] else [gbType.value, IntType];
    var names := if gbType.None? then [aggName] else [gbName, aggName];
    NewTupleDesc(types, Some(names)).value
  }

  /** The last column of an aggregate schema is the aggregate: an int named aggName. */
  lemma AggregateColumnIsLast(gbType: Option<FieldType>, aggName: Option<string>, gbName: Option<string>)
    ensures var td := CreateAggregateTupleDesc(gbType, aggName, gbName);
            var last := |td.types| - 1;
            GetType(td, last) == Ok(IntType) && GetFieldName(td, last) == Ok(aggName) &&
            (gbType.Some? ==> GetType(td, 0) == Ok(gbType.value) && GetFieldName(td, 0) == Ok(gbName))
  {
  }

  /** The tuple an aggregator's iterator builds for one group: setField(0, value) without
      grouping, setField(0, group) and setField(1, value) with it. */
  function GroupRow(td: TupleDesc, grouping: bool, group: Option<Field>, value: int): Result<Row>
  {
    var empty := EmptyRow(td);
    if !grouping then SetFieldOf(empty, 0, Some(IntField(value)))
    else
      var withGroup := SetFieldOf(empty, 0, group);
      if withGroup.Err? then withGroup else SetFieldOf(withGroup.value, 1, Some(IntField(value)))
  }

  /** On the iterator's own schema, the row is (value) without grouping and
      (group, value) with it; a null group field throws, and so does a group field of
      another type than the schema's. */
  lemma GroupRowShape(gbType: Option<FieldType>, group: Option<Field>, value: int)
    ensures var r := GroupRow(CreateAggregateTupleDesc(gbType, None, None), gbType.Some?, group, value);
            (gbType.None? ==> r.Ok? && r.value.fields == [Some(IntField(value))]) &&
            (gbType.Some? ==> (r.Ok? <==> group.Some? && TypeOf(group.value) == gbType.value)) &&
            (gbType.Some? && r.Ok? ==> r.value.fields == [group, Some(IntField(value))]) &&
            (r.Ok? ==> WellTyped(r.value) && r.value.rid.None?)
  {
    var td := CreateAggregateTupleDesc(gbType, None, None);
    var r := GroupRow(td, gbType.Some?, group, value);
    if r.Ok? {
      assert r.value.fields == (if gbType.None? then [Some(IntField(value))] else [group, Some(IntField(value))]);
    }
  }
}
