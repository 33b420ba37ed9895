/** Grouped aggregation over a string column, which supports COUNT only. */
module StringAggregators {
  import opened JavaLang
  import opened Fields
  import opened TupleDescs
  import opened Tuples
  import opened Aggregation
  import opened AggregateSchemas

  /** The aggregator's invariant on its maps: each group's count is the number of tuples
      merged into it, as an int, and its stored key object is a field of that key. */
  ghost predicate Counted(counts: map<GroupKey, int>, fields: map<GroupKey, Option<Field>>, merges: map<GroupKey, nat>)
  {
    counts.Keys == merges.Keys && fields.Keys == merges.Keys &&
    (forall k :: k in merges ==> merges[k] > 0 && counts[k] == Wrap(merges[k])) &&
    (forall k :: k in fields ==> KeyOf(fields[k]) == k)
  }

  /** One more tuple in the group of field g keeps the maps consistent. */
  lemma CountStep(counts: map<GroupKey, int>, fields: map<GroupKey, Option<Field>>, merges: map<GroupKey, nat>,
                  g: Option<Field>,
                  counts': map<GroupKey, int>, fields': map<GroupKey, Option<Field>>, merges': map<GroupKey, nat>)
    requires Counted(counts, fields, merges)
    requires var k := KeyOf(g);
             counts' == counts[k := Wrap((if k in counts then counts[k] else 0) + 1)] &&
             fields' == (if k in counts then fields else fields[k := g]) &&
             merges' == merges[k := CountOf(merges, k) + 1]
    ensures Counted(counts', fields', merges')
  {
    var k := KeyOf(g);
    if k in merges {
      WrapAdd(merges[k], 1);
    }
  }

  /** How many tuples a group has merged; a group never seen has none. */
  function CountOf(merges: map<GroupKey, nat>, k: GroupKey): nat {
    if k in merges then merges[k] else 0
  }

  /** The groups' tuple counts after merging rows, in order, into groups holding merges:
      the first tuple whose group field cannot be read ends it with that error. */
  function CountedAfter(gbfield: int, merges: map<GroupKey, nat>, rows: seq<Row>): Result<map<GroupKey, nat>>
    requires AllSized(rows)
    decreases |rows|
  {
    if rows == [] then Ok(merges)
    else
      var g := GetFieldOf(rows[0], gbfield);
      if g.Err? then Err(g.error)
      else
        var k := KeyOf(g.value);
        CountedAfter(gbfield, merges[k := CountOf(merges, k) + 1], rows[1..])
  }

  /** Where counting rows, in order, into groups holding merges stops: the counts as they
      stand then and the rows not yet consumed. A failing tuple is consumed and counts
      nothing, so after a failure the counts made before it stay. */
  function CountedPrefix(gbfield: int, merges: map<GroupKey, nat>, rows: seq<Row>): (p: (map<GroupKey, nat>, seq<Row>))
    requires AllSized(rows)
    decreases |rows|
    ensures |p.1| <= |rows|
  {
    if rows == [] then (merges, [])
    else
      var g := GetFieldOf(rows[0], gbfield);
      if g.Err? then (merges, rows[1..])
      else
        var k := KeyOf(g.value);
        CountedPrefix(gbfield, merges[k := CountOf(merges, k) + 1], rows[1..])
  }

  /** Where the count stops, against CountedAfter: when every row merges, all rows are
      consumed and the counts are CountedAfter's; when one fails, it is the last row
      consumed, the counts are what counting the rows before it gives, and counting the
      failing row into them gives CountedAfter's error. */
  lemma {:induction false} CountedPrefixMeaning(gbfield: int, merges: map<GroupKey, nat>, rows: seq<Row>)
    requires AllSized(rows)
    ensures var p := CountedPrefix(gbfield, merges, rows);
            var e := CountedAfter(gbfield, merges, rows);
            p.1 == rows[|rows| - |p.1|..] &&
            (e.Ok? ==> p == (e.value, [])) &&
            (e.Err? ==> |p.1| < |rows| &&
                        CountedAfter(gbfield, merges, rows[..|rows| - |p.1| - 1]) == Ok(p.0) &&
                        CountedAfter(gbfield, p.0, [rows[|rows| - |p.1| - 1]]) == e)
    decreases |rows|
  {
    if rows != [] {
      var g := GetFieldOf(rows[0], gbfield);
      if g.Err? {
        assert rows[..0] == [];
      } else {
        var k := KeyOf(g.value);
        AllSizedTail(rows);
        CountedPrefixMeaning(gbfield, merges[k := CountOf(merges, k) + 1], rows[1..]);
        var merges' := merges[k := CountOf(merges, k) + 1];
        var p := CountedPrefix(gbfield, merges', rows[1..]);
        assert CountedPrefix(gbfield, merges, rows) == p;
        assert CountedAfter(gbfield, merges, rows) == CountedAfter(gbfield, merges', rows[1..]);
        assert rows[1..][|rows| - 1 - |p.1|..] == rows[|rows| - |p.1|..];
        if CountedAfter(gbfield, merges, rows).Err? {
          var n := |rows| - |p.1| - 1;
          assert rows[1..][..n - 1] == rows[1..n] == rows[..n][1..];
          assert rows[..n][0] == rows[0];
          assert CountedAfter(gbfield, merges, rows[..n]) == CountedAfter(gbfield, merges', rows[1..n]);
          assert rows[1..][n - 1] == rows[n];
        }
      }
    }
  }

  /** The number of rows whose group field keys group k. */
  function GroupSize(gbfield: int, rows: seq<Row>, k: GroupKey): nat
    requires AllSized(rows)
    decreases |rows|
  {
    if rows == [] then 0
    else
      var g := GetFieldOf(rows[0], gbfield);
      (if g.Ok? && KeyOf(g.value) == k then 1 else 0) + GroupSize(gbfield, rows[1..], k)
  }

  /** When every row merges, each group's count grows by the number of its rows. */
  lemma {:induction false} CountedAfterMeaning(gbfield: int, merges: map<GroupKey, nat>, rows: seq<Row>, k: GroupKey)
    requires AllSized(rows) && CountedAfter(gbfield, merges, rows).Ok?
    ensures var m := CountedAfter(gbfield, merges, rows).value;
            CountOf(m, k) == CountOf(merges, k) + GroupSize(gbfield, rows, k) &&
            (k in m <==> k in merges || GroupSize(gbfield, rows, k) > 0)
    decreases |rows|
  {
    if rows != [] {
      var k0 := KeyOf(GetFieldOf(rows[0], gbfield).value);
      CountedAfterMeaning(gbfield, merges[k0 := CountOf(merges, k0) + 1], rows[1..], k);
    }
  }

  /** Without grouping the first tuple already fails, so the string aggregate of a
      non-empty input is an IndexOutOfBounds failure. */
  lemma NoGroupingFails(merges: map<GroupKey, nat>, rows: seq<Row>)
    requires AllSized(rows) && rows != []
    ensures CountedAfter(NO_GROUPING, merges, rows) == Err(IndexOutOfBounds)
  {
  }

  class StringAggregator {
    const gbfield: int
    const gbfieldtype: Option<FieldType>
    const afield: int
    const what: Op
    /** groupValToCount, and the key object it holds for each group (the field first put). */
    var groupValToCount: map<GroupKey, int>
    var groupFields: map<GroupKey, Option<Field>>
    /** How many tuples were merged into each group. */
    ghost var merges: map<GroupKey, nat>

    ghost predicate Valid()
      reads this
    {
      what == COUNT && Counted(groupValToCount, groupFields, merges)
    }

    constructor (gbfield: int, gbfieldtype: Option<FieldType>, afield: int)
      ensures Valid() && merges == map[]
      ensures this.gbfield == gbfield && this.gbfieldtype == gbfieldtype && this.afield == afield
    {
      this.gbfield := gbfield;
      this.gbfieldtype := gbfieldtype;
      this.afield := afield;
      what := COUNT;
      groupValToCount := map[];
      groupFields := map[];
      merges := map[];
    }

    /** merge(tup): the count of the tuple's group goes up by one, from 0 for a new group;
        no other group changes. The group is read with getField(gbfield) as it is, so under
        NO_GROUPING every merge fails on the array index -1 and changes nothing. */
    method Merge(tup: Row) returns (r: Result<()>)
      requires Valid() && |tup.fields| == |tup.td.types|
      modifies this
      ensures Valid()
      ensures r.Ok? <==> GetFieldOf(tup, gbfield).Ok?
      ensures r.Err? ==> r == Err(GetFieldOf(tup, gbfield).error) &&
                         merges == old(merges) && groupValToCount == old(groupValToCount) &&
                         groupFields == old(groupFields)
      ensures gbfield == NO_GROUPING ==> r == Err(IndexOutOfBounds)
      ensures r.Ok? ==> var g := GetFieldOf(tup, gbfield).value;
                        var k := KeyOf(g);
                        merges == old(merges)[k := CountOf(old(merges), k) + 1] &&
                        groupFields == (if k in old(groupValToCount) then old(groupFields) else old(groupFields)[k := g])
    {
      var groupVal := GetFieldOf(tup, gbfield);
      if groupVal.Err? {
        return Err(groupVal.error);
      }
      var k := KeyOf(groupVal.value);
      var isNew := k !in groupValToCount;
      var count := if isNew then 0 else groupValToCount[k];
      groupValToCount := groupValToCount[k := Wrap(count + 1)];
      if isNew {
        groupFields := groupFields[k := groupVal.value];
      }
      merges := merges[k := CountOf(merges, k) + 1];
      CountStep(old(groupValToCount), old(groupFields), old(merges), groupVal.value,
                groupValToCount, groupFields, merges);
      return Ok(());
    }

    /** The count the iterator reports for a group is the number of tuples merged into it
        while that fits in an int. */
    lemma CountMeaning(k: GroupKey)
      requires Valid() && k in merges && merges[k] <= INT_MAX
      ensures groupValToCount[k] == merges[k]
    {
    }
  }

  /** new StringAggregator(...): an operator other than COUNT ends in exit. */
  method NewStringAggregator(gbfield: int, gbfieldtype: Option<FieldType>, afield: int, what: Op)
    returns (r: Result<StringAggregator>)
    ensures r.Ok? <==> what == COUNT
    ensures r.Err? ==> r.error == ProcessExit
    ensures r.Ok? ==> fresh(r.value) && r.value.Valid() && r.value.merges == map[] &&
                      r.value.gbfield == gbfield && r.value.gbfieldtype == gbfieldtype && r.value.afield == afield
  {
    if what != COUNT {
      return Err(ProcessExit);
    }
    var agg := new StringAggregator(gbfield, gbfieldtype, afield);
    return Ok(agg);
  }

  /** StringAggregatorIterator: one (group, count) or (count) tuple per group, in the
      map's entry order. */
  class StringAggregatorIterator {
    var stringAgg: StringAggregator?
    const td: TupleDesc
    const grouping: bool
    /** `it`: the groups still to visit; null before open. */
    var it: Option<seq<GroupKey>>

    ghost predicate Valid()
      reads this, stringAgg
    {
      stringAgg != null ==> stringAgg.Valid() &&
                            (it.Some? ==> forall k :: k in it.value ==> k in stringAgg.groupValToCount)
    }

    /** The iterator's schema is createAggregateTupleDesc(gbfieldtype, null, null). */
    constructor (stringAgg: StringAggregator)
      requires stringAgg.Valid()
      ensures Valid() && this.stringAgg == stringAgg && it.None?
      ensures td == CreateAggregateTupleDesc(stringAgg.gbfieldtype, None, None)
      ensures grouping <==> stringAgg.gbfield != NO_GROUPING
    {
      this.stringAgg := stringAgg;
      td := CreateAggregateTupleDesc(stringAgg.gbfieldtype, None, None);
      grouping := stringAgg.gbfield != NO_GROUPING;
      it := None;
    }

    /** open() and rewind(): a fresh entry iterator over every group. */
    method Open() returns (r: Result<()>)
      requires Valid()
      modifies this`it
      ensures Valid()
      ensures stringAgg == null ==> r == Err(NullPointer) && it == old(it)
      ensures stringAgg != null ==> r.Ok? && it.Some? && Enumerates(it.value, stringAgg.groupValToCount.Keys)
    {
      if stringAgg == null {
        return Err(NullPointer);
      }
      var order := EntryOrder(stringAgg.groupValToCount.Keys);
      it := Some(order);
      return Ok(());
    }

    /** What readNext() returns next: null once every group was visited, otherwise the
        next group's tuple holding its count; before open, and after close, it throws. */
    function Upcoming(): Result<Option<Row>>
      requires Valid()
      reads this, stringAgg
    {
      if it.None? then Err(NullPointer)
      else if it.value == [] then Ok(None)
      else if stringAgg == null then Err(NullPointer)
      else
        var row := RowFor(stringAgg, it.value[0]);
        if row.Err? then Err(row.error) else Ok(Some(row.value))
    }

    /** readNext(): the entry iterator moves past one group, whose tuple it returns. */
    method ReadNext() returns (r: Result<Option<Row>>)
      requires Valid()
      modifies this`it
      ensures Valid()
      ensures r == old(Upcoming())
      ensures it == (if old(it).Some? && old(it).value != [] then Some(old(it).value[1..]) else old(it))
    {
      if it.None? {
        return Err(NullPointer);
      }
      if it.value == [] {
        return Ok(None);
      }
      var k := it.value[0];
      it := Some(it.value[1..]);
      if stringAgg == null {
        return Err(NullPointer);
      }
      var row := RowFor(stringAgg, k);
      if row.Err? {
        return Err(row.error);
      }
      return Ok(Some(row.value));
    }

    /** The tuple for group k: the group and its count. */
    function RowFor(agg: StringAggregator, k: GroupKey): Result<Row>
      requires agg.Valid() && k in agg.groupValToCount
      reads agg
    {
      GroupRow(td, grouping, agg.groupFields[k], agg.groupValToCount[k])
    }

    /** close(): drops the aggregator. */
    method Close()
      modifies this`stringAgg
      ensures stringAgg == null
    {
      stringAgg := null;
    }
  }
}
