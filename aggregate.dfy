/** The Aggregate operator: it feeds every tuple of its child to an int or a string
    aggregator, then hands out the aggregator's per-group tuples. */
module Aggregates {
  import opened JavaLang
  import opened Fields
  import opened TupleDescs
  import opened Tuples
  import opened DbIterators
  import opened Aggregation
  import opened AggregateSchemas
  import opened IntAggregators
  import opened StringAggregators

  /** What String.format's "%s" writes for a name: the string, or "null". */
  function Shown(name: Option<string>): string {
    if name.None? then "null" else name.value
  }

  /** The aggregate column's name, "aggName(childFieldName)". */
  function AggColumnName(op: Op, childName: Option<string>): string {
    AggName(op) + "(" + Shown(childName) + ")"
  }

  lemma CountAt3(op: Op, name: Option<string>)
    ensures |AggName(op)| == (if op == COUNT then 5 else 3)
    ensures AggColumnName(op, name)[3] == (if op == COUNT then 'n' else '(')
  {
  }

  /** Different column names for different operators or different child columns: the
      operator and the child column's shown name can both be read back from the name. */
  lemma AggColumnNameInjective(a: Op, b: Op, n: Option<string>, m: Option<string>)
    ensures AggColumnName(a, n) == AggColumnName(b, m) <==> a == b && Shown(n) == Shown(m)
  {
    var s, t := AggColumnName(a, n), AggColumnName(b, m);
    var la, lb := |AggName(a)|, |AggName(b)|;
    // "count" is longer than the other names, and its column name has 'n' where theirs has '('
    CountAt3(a, n);
    CountAt3(b, m);
    if s == t {
      assert AggName(a) == s[..la] && AggName(b) == t[..lb];
      AggNameInjective(a, b);
      assert Shown(n) == s[la + 1..|s| - 1] && Shown(m) == t[lb + 1..|t| - 1];
    }
  }

  /** The schema getTupleDesc builds: the group column, named and typed as in the child,
      when grouping, then the int column named aggName(childFieldName). Reading the
      aggregate column's name, then the group column's, throws past the child's name array. */
  function AggregateTupleDesc(childTd: TupleDesc, aop: Op, afield: int, gfield: int): (r: Result<TupleDesc>)
    requires 0 <= afield < |childTd.types|
    requires gfield != NO_GROUPING ==> 0 <= gfield < |childTd.types|
  {
    var gbFieldType := if gfield != NO_GROUPING then Some(childTd.types[gfield]) else None;
    var aggFieldName := GetFieldName(childTd, afield);
    if aggFieldName.Err? then Err(aggFieldName.error)
    else
      var groupByColumnName := if gfield != NO_GROUPING then GetFieldName(childTd, gfield) else Ok(None);
      if groupByColumnName.Err? then Err(groupByColumnName.error)
      else Ok(CreateAggregateTupleDesc(gbFieldType, Some(AggColumnName(aop, aggFieldName.value)), groupByColumnName.value))
  }

  /** The output schema's columns in terms of the child's; it is built exactly when the
      child's names, if any, reach both columns read. */
  lemma AggregateTupleDescShape(childTd: TupleDesc, aop: Op, afield: int, gfield: int)
    requires 0 <= afield < |childTd.types|
    requires gfield != NO_GROUPING ==> 0 <= gfield < |childTd.types|
    ensures var r := AggregateTupleDesc(childTd, aop, afield, gfield);
            (r.Ok? <==> childTd.names.None? ||
                        (afield < |childTd.names.value| &&
                         (gfield != NO_GROUPING ==> gfield < |childTd.names.value|))) &&
            (r.Err? ==> r.error == IndexOutOfBounds)
    ensures AggregateTupleDesc(childTd, aop, afield, gfield).Ok? ==>
            var td := AggregateTupleDesc(childTd, aop, afield, gfield).value;
            var aggName := Some(AggColumnName(aop, if childTd.names.Some? then childTd.names.value[afield] else None));
            (gfield == NO_GROUPING ==> td.types == [IntType] && td.names == Some([aggName])) &&
            (gfield != NO_GROUPING ==>
               td.types == [childTd.types[gfield], IntType] &&
               td.names == Some([if childTd.names.Some? then childTd.names.value[gfield] else None, aggName]))
  {
  }

  /** The open() loop for an int aggregate: while the child has a tuple, merge it. The
      groups end up as merging the child's remaining tuples in order makes them, or
      the first failing merge is the answer, with that tuple consumed and the groups
      merged before it kept. */
  method DrainInto(child: LookAhead, agg: IntAggregator) returns (r: Result<()>)
    requires child.Valid() && agg.Valid() && AllSized(child.rows) && AllSized(child.Remaining())
    modifies child, agg
    ensures child.Valid() && agg.Valid()
    ensures var e := MergedAfter(agg.gbfield, agg.afield, old(agg.merged), old(child.Remaining()));
            (r.Ok? <==> e.Ok?) && (r.Err? ==> r.error == e.error) &&
            (r.Ok? ==> agg.merged == e.value && child.Remaining() == [])
    ensures (agg.merged, child.Remaining()) == MergedPrefix(agg.gbfield, agg.afield, old(agg.merged), old(child.Remaining()))
    ensures old(agg.merged).Keys <= agg.merged.Keys
  {
    ghost var e := MergedAfter(agg.gbfield, agg.afield, agg.merged, child.Remaining());
    ghost var p := MergedPrefix(agg.gbfield, agg.afield, agg.merged, child.Remaining());
    var more := child.HasNext();
    while more
      invariant child.Valid() && agg.Valid() && AllSized(child.Remaining())
      invariant more <==> child.Remaining() != []
      invariant MergedAfter(agg.gbfield, agg.afield, agg.merged, child.Remaining()) == e
      invariant MergedPrefix(agg.gbfield, agg.afield, agg.merged, child.Remaining()) == p
      invariant old(agg.merged).Keys <= agg.merged.Keys
      decreases |child.Remaining()|
    {
      ghost var rest := child.Remaining();
      var t := child.Next();
      assert t.value == rest[0] && child.Remaining() == rest[1..];
      var m := agg.Merge(t.value);
      if m.Err? {
        return m;
      }
      more := child.HasNext();
    }
    return Ok(());
  }

  /** The same loop for a string aggregate. */
  method DrainIntoStrings(child: LookAhead, agg: StringAggregator) returns (r: Result<()>)
    requires child.Valid() && agg.Valid() && AllSized(child.rows) && AllSized(child.Remaining())
    modifies child, agg
    ensures child.Valid() && agg.Valid()
    ensures var e := CountedAfter(agg.gbfield, old(agg.merges), old(child.Remaining()));
            (r.Ok? <==> e.Ok?) && (r.Err? ==> r.error == e.error) &&
            (r.Ok? ==> agg.merges == e.value && child.Remaining() == [])
    ensures (agg.merges, child.Remaining()) == CountedPrefix(agg.gbfield, old(agg.merges), old(child.Remaining()))
    ensures old(agg.merges).Keys <= agg.merges.Keys
  {
    ghost var e := CountedAfter(agg.gbfield, agg.merges, child.Remaining());
    ghost var p := CountedPrefix(agg.gbfield, agg.merges, child.Remaining());
    var more := child.HasNext();
    while more
      invariant child.Valid() && agg.Valid() && AllSized(child.Remaining())
      invariant more <==> child.Remaining() != []
      invariant CountedAfter(agg.gbfield, agg.merges, child.Remaining()) == e
      invariant CountedPrefix(agg.gbfield, agg.merges, child.Remaining()) == p
      invariant old(agg.merges).Keys <= agg.merges.Keys
      decreases |child.Remaining()|
    {
      var m := CountNext(child, agg);
      if m.Err? {
        assert (agg.merges, child.Remaining()) == p;
        return m;
      }
      more := child.HasNext();
    }
    assert CountedPrefix(agg.gbfield, agg.merges, []) == (agg.merges, []);
    return Ok(());
  }

  /** One turn of the string aggregate's loop: the child's next tuple is merged. */
  method CountNext(child: LookAhead, agg: StringAggregator) returns (r: Result<()>)
    requires child.Valid() && agg.Valid() && AllSized(child.Remaining()) && child.Remaining() != []
    modifies child, agg
    ensures child.Valid() && agg.Valid() && AllSized(child.Remaining())
    ensures |child.Remaining()| < old(|child.Remaining()|)
    ensures old(agg.merges).Keys <= agg.merges.Keys
    ensures var e := CountedAfter(agg.gbfield, old(agg.merges), old(child.Remaining()));
            (r.Ok? ==> CountedAfter(agg.gbfield, agg.merges, child.Remaining()) == e) &&
            (r.Err? ==> e == Err(r.error))
    ensures var p := CountedPrefix(agg.gbfield, old(agg.merges), old(child.Remaining()));
            (r.Ok? ==> CountedPrefix(agg.gbfield, agg.merges, child.Remaining()) == p) &&
            (r.Err? ==> (agg.merges, child.Remaining()) == p)
  {
    ghost var rest := child.Remaining();
    AllSizedTail(rest);
    var t := child.Next();
    assert t.value == rest[0] && child.Remaining() == rest[1..];
    r := agg.Merge(t.value);
  }

  class Aggregate {
    const child: LookAhead
    const afield: int
    const gfield: int
    const aop: Op
    const gbFieldType: Option<FieldType>
    /** The aggregator and its iterator: an int pair or a string pair, the other null. */
    const intAgg: IntAggregator?
    const intIt: IntAggregatorIterator?
    const stringAgg: StringAggregator?
    const stringIt: StringAggregatorIterator?
    /** getTupleDesc's cache. */
    var td: Option<TupleDesc>

    ghost predicate Valid()
      reads this, child, intAgg, intIt, stringAgg, stringIt
    {
      child.Valid() && AllSized(child.rows) &&
      0 <= afield < |child.td.types| && (gfield != NO_GROUPING ==> 0 <= gfield < |child.td.types|) &&
      gbFieldType == (if gfield != NO_GROUPING then Some(child.td.types[gfield]) else None) &&
      (intAgg == null <==> stringAgg != null) &&
      (intAgg == null <==> intIt == null) && (stringAgg == null <==> stringIt == null) &&
      (intAgg != null ==>
         intAgg.Valid() && intAgg.gbfield == gfield && intAgg.afield == afield && intAgg.what == aop &&
         intAgg.gbfieldtype == gbFieldType &&
         (intIt.intAgg == null || intIt.intAgg == intAgg) && intIt.Valid()) &&
      (stringAgg != null ==>
         stringAgg.Valid() && stringAgg.gbfield == gfield && stringAgg.afield == afield && aop == COUNT &&
         stringAgg.gbfieldtype == gbFieldType &&
         (stringIt.stringAgg == null || stringIt.stringAgg == stringAgg) && stringIt.Valid()) &&
      (td.Some? ==> AggregateTupleDesc(child.td, aop, afield, gfield) == Ok(td.value))
    }

    /** The constructor once the column types were read and the operator accepted: an
        IntAggregator for an int aggregate column, a StringAggregator for a string one. */
    constructor (child: LookAhead, afield: int, gfield: int, aop: Op)
      requires child.Valid() && AllSized(child.rows)
      requires 0 <= afield < |child.td.types| && (gfield != NO_GROUPING ==> 0 <= gfield < |child.td.types|)
      requires child.td.types[afield] == StringType ==> aop == COUNT
      ensures Valid() && td.None?
      ensures this.child == child && this.afield == afield && this.gfield == gfield && this.aop == aop
      ensures intAgg != null <==> child.td.types[afield] == IntType
      ensures intAgg != null ==> fresh(intAgg) && fresh(intIt) && intAgg.merged == map[] &&
                                 intIt.intAgg == intAgg && intIt.it.None?
      ensures stringAgg != null ==> fresh(stringAgg) && fresh(stringIt) && stringAgg.merges == map[] &&
                                    stringIt.stringAgg == stringAgg && stringIt.it.None?
    {
      this.child := child;
      this.afield := afield;
      this.gfield := gfield;
      this.aop := aop;
      var gbt := if gfield != NO_GROUPING then Some(child.td.types[gfield]) else None;
      gbFieldType := gbt;
      if child.td.types[afield] == IntType {
        var agg := new IntAggregator(gfield, gbt, afield, aop);
        var it := new IntAggregatorIterator(agg);
        intAgg, intIt := agg, it;
        stringAgg, stringIt := null, null;
      } else {
        var agg := new StringAggregator(gfield, gbt, afield);
        var it := new StringAggregatorIterator(agg);
        stringAgg, stringIt := agg, it;
        intAgg, intIt := null, null;
      }
      td := None;
    }

    /** getTupleDesc(): built on the first call, then the cached schema; a call that
        throws leaves the cache empty. */
    method GetTupleDesc() returns (r: Result<TupleDesc>)
      requires Valid()
      modifies this`td
      ensures Valid()
      ensures r == AggregateTupleDesc(child.td, aop, afield, gfield)
      ensures td == if r.Ok? then Some(r.value) else old(td)
      ensures old(td).Some? ==> r == Ok(old(td).value)
    {
      if td.Some? {
        return Ok(td.value);
      }
      var aggFieldName := GetFieldName(child.td, afield);
      if aggFieldName.Err? {
        return Err(aggFieldName.error);
      }
      var aggColumnName := AggColumnName(aop, aggFieldName.value);
      var groupByColumnName: Option<string> := None;
      if gfield != NO_GROUPING {
        var g := GetFieldName(child.td, gfield);
        if g.Err? {
          return Err(g.error);
        }
        groupByColumnName := g.value;
      }
      var t := CreateAggregateTupleDesc(gbFieldType, Some(aggColumnName), groupByColumnName);
      td := Some(t);
      return Ok(t);
    }

    /** open(): the child is opened and every tuple it hands out is merged, then the
        aggregator's iterator is opened over the groups. A failing merge ends open with
        its exception, the failing tuple consumed and the groups merged before it kept
        for the next open to build on; an iterator closed before throws when it is
        opened again. */
    method Open() returns (r: Result<()>)
      requires Valid()
      modifies child, intAgg, intIt, stringAgg, stringIt
      ensures Valid()
      ensures intAgg != null ==>
                var e := MergedAfter(gfield, afield, old(intAgg.merged), old(child.Rewound()));
                (e.Err? ==> r == Err(e.error)) &&
                (e.Ok? ==> intAgg.merged == e.value && child.Remaining() == [] &&
                           (intIt.intAgg == null ==> r == Err(NullPointer)) &&
                           (intIt.intAgg != null ==> r.Ok? && intIt.it.Some? &&
                                                     Enumerates(intIt.it.value, intAgg.groupValToAgg.Keys)))
      ensures stringAgg != null ==>
                var e := CountedAfter(gfield, old(stringAgg.merges), old(child.Rewound()));
                (e.Err? ==> r == Err(e.error)) &&
                (e.Ok? ==> stringAgg.merges == e.value && child.Remaining() == [] &&
                           (stringIt.stringAgg == null ==> r == Err(NullPointer)) &&
                           (stringIt.stringAgg != null ==> r.Ok? && stringIt.it.Some? &&
                                                           Enumerates(stringIt.it.value, stringAgg.groupValToCount.Keys)))
    ensures intAgg != null ==>
              (intAgg.merged, child.Remaining()) == MergedPrefix(gfield, afield, old(intAgg.merged), old(child.Rewound()))
    ensures stringAgg != null ==>
              (stringAgg.merges, child.Remaining()) == CountedPrefix(gfield, old(stringAgg.merges), old(child.Rewound()))
    {
      child.SizedStream();
      child.Rewind();
      child.SizedStream();
      if intAgg != null {
        r := DrainInto(child, intAgg);
        if r.Err? {
          return;
        }
        r := intIt.Open();
      } else {
        r := DrainIntoStrings(child, stringAgg);
        if r.Err? {
          return;
        }
        r := stringIt.Open();
      }
    }

    /** readNext(): `aggregatorIterator.hasNext() ? aggregatorIterator.next() : null`,
        which is one readNext of the aggregator's iterator. */
    method ReadNext() returns (r: Result<Option<Row>>)
      requires Valid()
      modifies intIt, stringIt
      ensures Valid()
      ensures intIt != null ==> r == old(intIt.Upcoming())
      ensures stringIt != null ==> r == old(stringIt.Upcoming())
    {
      if intIt != null {
        r := intIt.ReadNext();
      } else {
        r := stringIt.ReadNext();
      }
    }

    /** rewind(): the aggregator's iterator starts over from its first group. */
    method Rewind() returns (r: Result<()>)
      requires Valid()
      modifies intIt, stringIt
      ensures Valid()
      ensures intIt != null && intIt.intAgg != null ==>
                r.Ok? && intIt.it.Some? && Enumerates(intIt.it.value, intAgg.groupValToAgg.Keys)
      ensures stringIt != null && stringIt.stringAgg != null ==>
                r.Ok? && stringIt.it.Some? && Enumerates(stringIt.it.value, stringAgg.groupValToCount.Keys)
      ensures (intIt != null && intIt.intAgg == null) || (stringIt != null && stringIt.stringAgg == null) ==>
                r == Err(NullPointer)
    {
      if intIt != null {
        r := intIt.Open();
      } else {
        r := stringIt.Open();
      }
    }

    /** close(): closes the child and the aggregator's iterator, which lets go of the
        aggregator. */
    method Close()
      requires Valid()
      modifies child, intIt, stringIt
      ensures Valid() && child.buffered.None?
      ensures intIt != null ==> intIt.intAgg == null
      ensures stringIt != null ==> stringIt.stringAgg == null
    {
      child.Close();
      if intIt != null {
        intIt.Close();
      } else {
        stringIt.Close();
      }
    }
  }

  /** new Aggregate(child, afield, gfield, aop): reading the group column's type and the
      aggregate column's type can throw, in that order, and a string aggregate other than
      COUNT ends in exit. */
  method NewAggregate(child: LookAhead, afield: int, gfield: int, aop: Op) returns (r: Result<Aggregate>)
    requires child.Valid() && AllSized(child.rows)
    ensures var gt := GetType(child.td, gfield);
            var at := GetType(child.td, afield);
            (gfield != NO_GROUPING && gt.Err? ==> r == Err(gt.error)) &&
            ((gfield == NO_GROUPING || gt.Ok?) && at.Err? ==> r == Err(at.error)) &&
            ((gfield == NO_GROUPING || gt.Ok?) && at == Ok(StringType) && aop != COUNT ==> r == Err(ProcessExit)) &&
            ((gfield == NO_GROUPING || gt.Ok?) && at.Ok? && (at.value == StringType ==> aop == COUNT) ==> r.Ok?)
    ensures r.Ok? ==> fresh(r.value) && r.value.Valid() && r.value.child == child && r.value.td.None? &&
                      r.value.afield == afield && r.value.gfield == gfield && r.value.aop == aop &&
                      (r.value.intAgg != null <==> child.td.types[afield] == IntType)
  {
    if gfield != NO_GROUPING {
      var gt := GetType(child.td, gfield);
      if gt.Err? {
        return Err(gt.error);
      }
    }
    var at := GetType(child.td, afield);
    if at.Err? {
      return Err(at.error);
    }
    if at.value == StringType && aop != COUNT {
      return Err(ProcessExit);
    }
    var a := new Aggregate(child, afield, gfield, aop);
    return Ok(a);
  }
}
