/** Grouped aggregation over an int column: MIN, MAX, SUM, AVG or COUNT per group. */
module IntAggregators {
  import opened JavaLang
  import opened Fields
  import opened TupleDescs
  import opened Tuples
  import opened Aggregation
  import opened AggregateSchemas

  /** The group a tuple falls into: its group-by field (null when unset), or the
      constant IntField(NO_GROUPING) when there is no grouping. */
  function GroupOf(tup: Row, gbfield: int): (r: Result<Option<Field>>)
    requires |tup.fields| == |tup.td.types|
    ensures gbfield == NO_GROUPING ==> r == Ok(Some(IntField(NO_GROUPING)))
    ensures gbfield != NO_GROUPING ==> r == GetFieldOf(tup, gbfield)
  {
    if gbfield != NO_GROUPING then GetFieldOf(tup, gbfield) else Ok(Some(IntField(NO_GROUPING)))
  }

  /** ((IntField) tup.getField(afield)).getValue(): getField's own failures, then a null
      field fails the call and a string field fails the cast. */
  function AggValueOf(tup: Row, afield: int): (r: Result<int>)
    requires |tup.fields| == |tup.td.types|
    ensures r.Ok? <==> GetFieldOf(tup, afield).Ok? && tup.fields[afield].Some? && tup.fields[afield].value.IntField?
    ensures r.Ok? ==> tup.fields[afield] == Some(IntField(r.value))
    ensures r.Err? && GetFieldOf(tup, afield).Ok? ==>
              r.error == (if tup.fields[afield].None? then NullPointer else ClassCast)
    ensures GetFieldOf(tup, afield).Err? ==> r == Err(GetFieldOf(tup, afield).error)
  {
    var f := GetFieldOf(tup, afield);
    if f.Err? then Err(f.error)
    else match f.value
      case None => Err(NullPointer)
      case Some(Str(_)) => Err(ClassCast)
      case Some(IntField(n)) => Ok(n)
  }

  /** The values merged so far into group k (none for a group not seen yet). */
  function ValuesOf(m: map<GroupKey, seq<int>>, k: GroupKey): seq<int> {
    if k in m then m[k] else []
  }

  /** Merging one more value into a group folds one more step. */
  lemma FoldAppend(op: Op, vs: seq<int>, v: int)
    ensures Fold(op, vs + [v]) == Step(op, Fold(op, vs), v)
  {
    assert (vs + [v])[..|vs|] == vs;
  }

  /** The aggregator's invariant on its maps: every group's running value is the fold of
      its merged values, its count (AVG only) their number as an int, and its stored key
      object a field of that key. */
  ghost predicate Consistent(what: Op, agg: map<GroupKey, int>, fields: map<GroupKey, Option<Field>>,
                             counts: map<GroupKey, int>, merged: map<GroupKey, seq<int>>)
  {
    agg.Keys == merged.Keys && fields.Keys == merged.Keys &&
    (forall k :: k in merged ==> |merged[k]| > 0 && agg[k] == Fold(what, merged[k])) &&
    (forall k :: k in fields ==> KeyOf(fields[k]) == k) &&
    (what == AVG ==> counts.Keys == merged.Keys && forall k :: k in merged ==> counts[k] == Wrap(|merged[k]|)) &&
    (what != AVG ==> counts == map[])
  }

  /** One merge of value v into the group of field g keeps the maps consistent: the
      group gets one more value, a new group its first, and the stored key object of
      an existing group stays. */
  lemma MergeStep(what: Op, agg: map<GroupKey, int>, fields: map<GroupKey, Option<Field>>,
                  counts: map<GroupKey, int>, merged: map<GroupKey, seq<int>>, g: Option<Field>, v: int,
                  agg': map<GroupKey, int>, fields': map<GroupKey, Option<Field>>,
                  counts': map<GroupKey, int>, merged': map<GroupKey, seq<int>>)
    requires Consistent(what, agg, fields, counts, merged)
    requires var k := KeyOf(g);
             var isNew := k !in agg;
             agg' == agg[k := Step(what, if isNew then InitValue(what) else agg[k], v)] &&
             fields' == (if isNew then fields[k := g] else fields) &&
             counts' == (if what != AVG then counts
                         else counts[k := Wrap((if isNew then 0 else counts[k]) + 1)]) &&
             merged' == merged[k := ValuesOf(merged, k) + [v]]
    ensures Consistent(what, agg', fields', counts', merged')
  {
    var k := KeyOf(g);
    MergeFolds(what, agg, merged, k, v, agg', merged');
    if what == AVG {
      MergeCounts(counts, merged, k, v, counts', merged');
    }
  }

  /** The merged group's running value is the fold of its values with v appended. */
  lemma MergeFolds(what: Op, agg: map<GroupKey, int>, merged: map<GroupKey, seq<int>>, k: GroupKey, v: int,
                   agg': map<GroupKey, int>, merged': map<GroupKey, seq<int>>)
    requires agg.Keys == merged.Keys
    requires forall j :: j in merged ==> |merged[j]| > 0 && agg[j] == Fold(what, merged[j])
    requires agg' == agg[k := Step(what, if k !in agg then InitValue(what) else agg[k], v)]
    requires merged' == merged[k := ValuesOf(merged, k) + [v]]
    ensures agg'.Keys == merged'.Keys
    ensures forall j :: j in merged' ==> |merged'[j]| > 0 && agg'[j] == Fold(what, merged'[j])
  {
    FoldAppend(what, ValuesOf(merged, k), v);
  }

  /** The merged group's count is the number of its values, as an int. */
  lemma MergeCounts(counts: map<GroupKey, int>, merged: map<GroupKey, seq<int>>, k: GroupKey, v: int,
                    counts': map<GroupKey, int>, merged': map<GroupKey, seq<int>>)
    requires counts.Keys == merged.Keys
    requires forall j :: j in merged ==> counts[j] == Wrap(|merged[j]|)
    requires counts' == counts[k := Wrap((if k !in counts then 0 else counts[k]) + 1)]
    requires merged' == merged[k := ValuesOf(merged, k) + [v]]
    ensures counts'.Keys == merged'.Keys
    ensures forall j :: j in merged' ==> counts'[j] == Wrap(|merged'[j]|)
  {
    var vs := ValuesOf(merged, k);
    assert |merged'[k]| == |vs| + 1;
    if k in counts {
      WrapAdd(|vs|, 1);
    }
  }

  /** The groups' values after merging rows, in order, into groups holding merged: the
      first tuple whose group or aggregate field cannot be read ends it with that error. */
  function MergedAfter(gbfield: int, afield: int, merged: map<GroupKey, seq<int>>, rows: seq<Row>)
    : Result<map<GroupKey, seq<int>>>
    requires AllSized(rows)
    decreases |rows|
  {
    if rows == [] then Ok(merged)
    else
      var g := GroupOf(rows[0], gbfield);
      var v := AggValueOf(rows[0], afield);
      if g.Err? then Err(g.error)
      else if v.Err? then Err(v.error)
      else
        var k := KeyOf(g.value);
        MergedAfter(gbfield, afield, merged[k := ValuesOf(merged, k) + [v.value]], rows[1..])
  }

  /** Where merging rows, in order, into groups holding merged stops: the groups as they
      stand then and the rows not yet consumed. A failing tuple is consumed and adds nothing,
      so after a failure the groups merged before it stay. */
  function MergedPrefix(gbfield: int, afield: int, merged: map<GroupKey, seq<int>>, rows: seq<Row>)
    : (p: (map<GroupKey, seq<int>>, seq<Row>))
    requires AllSized(rows)
    decreases |rows|
    ensures |p.1| <= |rows|
  {
    if rows == [] then (merged, [])
    else
      var g := GroupOf(rows[0], gbfield);
      var v := AggValueOf(rows[0], afield);
      if g.Err? || v.Err? then (merged, rows[1..])
      else
        var k := KeyOf(g.value);
        MergedPrefix(gbfield, afield, merged[k := ValuesOf(merged, k) + [v.value]], rows[1..])
  }

  /** Where the merge stops, against MergedAfter: when every row merges, all rows are
      consumed and the groups are MergedAfter's; when one fails, it is the last row
      consumed, the groups are what merging the rows before it gives, and merging the
      failing row into them gives MergedAfter's error. */
  lemma {:induction false} MergedPrefixMeaning(gbfield: int, afield: int, merged: map<GroupKey, seq<int>>, rows: seq<Row>)
    requires AllSized(rows)
    ensures var p := MergedPrefix(gbfield, afield, merged, rows);
            var e := MergedAfter(gbfield, afield, merged, rows);
            p.1 == rows[|rows| - |p.1|..] &&
            (e.Ok? ==> p == (e.value, [])) &&
            (e.Err? ==> |p.1| < |rows| &&
                        MergedAfter(gbfield, afield, merged, rows[..|rows| - |p.1| - 1]) == Ok(p.0) &&
                        MergedAfter(gbfield, afield, p.0, [rows[|rows| - |p.1| - 1]]) == e)
    decreases |rows|
  {
    if rows != [] {
      var g := GroupOf(rows[0], gbfield);
      var v := AggValueOf(rows[0], afield);
      if g.Err? || v.Err? {
        assert rows[..0] == [];
      } else {
        var k := KeyOf(g.value);
        var merged' := merged[k := ValuesOf(merged, k) + [v.value]];
        AllSizedTail(rows);
        MergedPrefixMeaning(gbfield, afield, merged', rows[1..]);
        var p := MergedPrefix(gbfield, afield, merged', rows[1..]);
        assert MergedPrefix(gbfield, afield, merged, rows) == p;
        assert MergedAfter(gbfield, afield, merged, rows) == MergedAfter(gbfield, afield, merged', rows[1..]);
        assert rows[1..][|rows| - 1 - |p.1|..] == rows[|rows| - |p.1|..];
        if MergedAfter(gbfield, afield, merged, rows).Err? {
          var n := |rows| - |p.1| - 1;
          assert rows[1..][..n - 1] == rows[1..n] == rows[..n][1..];
          assert rows[..n][0] == rows[0];
          assert MergedAfter(gbfield, afield, merged, rows[..n]) == MergedAfter(gbfield, afield, merged', rows[1..n]);
          assert rows[1..][n - 1] == rows[n];
        }
      }
    }
  }

  /** The aggregate-field values of the rows in group k, in order. */
  function GroupValues(gbfield: int, afield: int, rows: seq<Row>, k: GroupKey): seq<int>
    requires AllSized(rows)
    decreases |rows|
  {
    if rows == [] then []
    else
      var g := GroupOf(rows[0], gbfield);
      var v := AggValueOf(rows[0], afield);
      var rest := GroupValues(gbfield, afield, rows[1..], k);
      if g.Ok? && v.Ok? && KeyOf(g.value) == k then [v.value] + rest else rest
  }

  /** When every row merges, each group gains exactly its rows' values, in order, and
      a group exists afterwards iff it existed before or some row belongs to it. */
  lemma {:induction false} MergedAfterMeaning(gbfield: int, afield: int, merged: map<GroupKey, seq<int>>, rows: seq<Row>, k: GroupKey)
    requires AllSized(rows) && MergedAfter(gbfield, afield, merged, rows).Ok?
    ensures var m := MergedAfter(gbfield, afield, merged, rows).value;
            ValuesOf(m, k) == ValuesOf(merged, k) + GroupValues(gbfield, afield, rows, k) &&
            (k in m <==> k in merged || GroupValues(gbfield, afield, rows, k) != [])
    decreases |rows|
  {
    if rows != [] {
      var g := GroupOf(rows[0], gbfield);
      var v := AggValueOf(rows[0], afield);
      var k0 := KeyOf(g.value);
      var merged' := merged[k0 := ValuesOf(merged, k0) + [v.value]];
      MergedAfterMeaning(gbfield, afield, merged', rows[1..], k);
      if k == k0 {
        assert ValuesOf(merged', k) == ValuesOf(merged, k) + [v.value];
      } else {
        assert ValuesOf(merged', k) == ValuesOf(merged, k);
      }
    }
  }

  class IntAggregator {
    const gbfield: int
    const gbfieldtype: Option<FieldType>
    const afield: int
    const what: Op
    /** groupValToAgg, and the key object it holds for each group (the field first put). */
    var groupValToAgg: map<GroupKey, int>
    var groupFields: map<GroupKey, Option<Field>>
    /** groupValToCount; it exists (and is filled) only for AVG. */
    var groupValToCount: map<GroupKey, int>
    /** The aggregate-field values merged into each group, in merge order. */
    ghost var merged: map<GroupKey, seq<int>>

    ghost predicate Valid()
      reads this
    {
      Consistent(what, groupValToAgg, groupFields, groupValToCount, merged)
    }

    constructor (gbfield: int, gbfieldtype: Option<FieldType>, afield: int, what: Op)
      ensures Valid() && merged == map[]
      ensures this.gbfield == gbfield && this.gbfieldtype == gbfieldtype
      ensures this.afield == afield && this.what == what
    {
      this.gbfield := gbfield;
      this.gbfieldtype := gbfieldtype;
      this.afield := afield;
      this.what := what;
      groupValToAgg := map[];
      groupFields := map[];
      groupValToCount := map[];
      merged := map[];
    }

    /** merge(tup): the tuple's value joins its group, which starts from the operator's
        initial value when it is new; no other group changes. Reading either field can
        throw, the group first, and then nothing changes. */
    method Merge(tup: Row) returns (r: Result<()>)
      requires Valid() && |tup.fields| == |tup.td.types|
      modifies this
      ensures Valid()
      ensures r.Ok? <==> GroupOf(tup, gbfield).Ok? && AggValueOf(tup, afield).Ok?
      ensures r.Err? ==> r.error == (if GroupOf(tup, gbfield).Err? then GroupOf(tup, gbfield).error
                                     else AggValueOf(tup, afield).error)
      ensures r.Err? ==> merged == old(merged) && groupValToAgg == old(groupValToAgg) &&
                         groupFields == old(groupFields) && groupValToCount == old(groupValToCount)
      ensures r.Ok? ==>
        var g := GroupOf(tup, gbfield).value;
        var k := KeyOf(g);
        merged == old(merged)[k := ValuesOf(old(merged), k) + [AggValueOf(tup, afield).value]] &&
        groupFields == (if k in old(groupValToAgg) then old(groupFields) else old(groupFields)[k := g])
    {
      var groupVal := GroupOf(tup, gbfield);
      if groupVal.Err? {
        return Err(groupVal.error);
      }
      var aggFieldVal := AggValueOf(tup, afield);
      if aggFieldVal.Err? {
        return Err(aggFieldVal.error);
      }
      var k := KeyOf(groupVal.value);
      var v := aggFieldVal.value;
      // a new group is put with the operator's initial value (and a zero count for AVG)
      var isNew := k !in groupValToAgg;
      var cur := if isNew then InitValue(what) else groupValToAgg[k];
      var count := if isNew || what != AVG then 0 else groupValToCount[k];
      // the switch on the operator: Math.min, Math.max, +=, += with count + 1, ++
      var updatedAggVal := Step(what, cur, v);
      if what == AVG {
        groupValToCount := groupValToCount[k := Wrap(count + 1)];
      }
      if isNew {
        groupFields := groupFields[k := groupVal.value];
      }
      groupValToAgg := groupValToAgg[k := updatedAggVal];
      merged := merged[k := ValuesOf(merged, k) + [v]];
      MergeStep(what, old(groupValToAgg), old(groupFields), old(groupValToCount), old(merged), groupVal.value, v,
                groupValToAgg, groupFields, groupValToCount, merged);
      return Ok(());
    }

    /** The aggregate the iterator reports for group k: the running value, or for AVG the
        int quotient of the sum by the count (a count of zero would throw). */
    function Output(k: GroupKey): Result<int>
      requires Valid() && k in groupValToAgg
      reads this
    {
      if what != AVG then Ok(groupValToAgg[k])
      else if groupValToCount[k] == 0 then Err(Arithmetic)
      else Ok(Quot(groupValToAgg[k], groupValToCount[k]))
    }

    /** What each operator reports for a group, in terms of the values merged into it:
        MIN and MAX their least and greatest, SUM their int sum, COUNT their number, and
        AVG the truncated mean while the sum and the count fit in an int. */
    lemma OutputMeaning(k: GroupKey)
      requires Valid() && k in merged && AllInts(merged[k])
      ensures what == MIN ==> Output(k).Ok? && Output(k).value in merged[k] &&
                              forall i :: 0 <= i < |merged[k]| ==> Output(k).value <= merged[k][i]
      ensures what == MAX ==> Output(k).Ok? && Output(k).value in merged[k] &&
                              forall i :: 0 <= i < |merged[k]| ==> merged[k][i] <= Output(k).value
      ensures what == SUM ==> Output(k) == Ok(Wrap(Sum(merged[k])))
      ensures what == COUNT ==> Output(k) == Ok(Wrap(|merged[k]|))
      ensures what == AVG && IsInt(Sum(merged[k])) && |merged[k]| <= INT_MAX ==>
                Output(k) == Ok(Div(Sum(merged[k]), |merged[k]|))
    {
      FoldMinMax(merged[k]);
      FoldSum(merged[k]);
      FoldCount(merged[k]);
    }
  }

  /** IntAggregatorIterator: one output tuple per group, in the map's entry order. */
  class IntAggregatorIterator {
    var intAgg: IntAggregator?
    const td: TupleDesc
    const grouping: bool
    /** `it`: the groups still to visit; null before open. */
    var it: Option<seq<GroupKey>>

    ghost predicate Valid()
      reads this, intAgg
    {
      intAgg != null ==> intAgg.Valid() && (it.Some? ==> forall k :: k in it.value ==> k in intAgg.groupValToAgg)
    }

    /** The iterator's schema is createAggregateTupleDesc(gbfieldtype, null, null). */
    constructor (intAgg: IntAggregator)
      requires intAgg.Valid()
      ensures Valid() && this.intAgg == intAgg && it.None?
      ensures td == CreateAggregateTupleDesc(intAgg.gbfieldtype, None, None)
      ensures grouping <==> intAgg.gbfield != NO_GROUPING
    {
      this.intAgg := intAgg;
      td := CreateAggregateTupleDesc(intAgg.gbfieldtype, None, None);
      grouping := intAgg.gbfield != NO_GROUPING;
      it := None;
    }

    /** open() and rewind(): a fresh entry iterator over every group. */
    method Open() returns (r: Result<()>)
      requires Valid()
      modifies this`it
      ensures Valid()
      ensures intAgg == null ==> r == Err(NullPointer) && it == old(it)
      ensures intAgg != null ==> r.Ok? && it.Some? && Enumerates(it.value, intAgg.groupValToAgg.Keys)
    {
      if intAgg == null {
        return Err(NullPointer);
      }
      var order := EntryOrder(intAgg.groupValToAgg.Keys);
      it := Some(order);
      return Ok(());
    }

    /** The tuple for group k. */
    function RowFor(agg: IntAggregator, k: GroupKey): Result<Row>
      requires agg.Valid() && k in agg.groupValToAgg
      reads agg
    {
      var v := agg.Output(k);
      if v.Err? then Err(v.error) else GroupRow(td, grouping, agg.groupFields[k], v.value)
    }

    /** What readNext() returns next: null once every group was visited, otherwise the
        next group's tuple; before open, and after close, it throws. */
    function Upcoming(): Result<Option<Row>>
      requires Valid()
      reads this, intAgg
    {
      if it.None? then Err(NullPointer)
      else if it.value == [] then Ok(None)
      else if intAgg == null then Err(NullPointer)
      else
        var row := RowFor(intAgg, it.value[0]);
        if row.Err? then Err(row.error) else Ok(Some(row.value))
    }

    /** readNext(): the entry iterator moves past one group, whose tuple it returns. */
    method ReadNext() returns (r: Result<Option<Row>>)
      requires Valid()
      modifies this`it
      ensures Valid()
      ensures r == old(Upcoming())
      ensures it == (if old(it).Some? && old(it).value != [] then Some(old(it).value[1..]) else old(it))
    {
      if it.None? {
        return Err(NullPointer);
      }
      if it.value == [] {
        return Ok(None);
      }
      var k := it.value[0];
      it := Some(it.value[1..]);
      if intAgg == null {
        return Err(NullPointer);
      }
      var row := RowFor(intAgg, k);
      if row.Err? {
        return Err(row.error);
      }
      return Ok(Some(row.value));
    }

    /** close(): drops the aggregator. */
    method Close()
      modifies this`intAgg
      ensures intAgg == null
    {
      intAgg := null;
    }
  }
}
