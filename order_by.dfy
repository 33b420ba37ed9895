/** The OrderBy operator: it collects its child's tuples, sorts them on one column, and
    hands them out in that order. */
module OrderBys {
  import opened JavaLang
  import opened Fields
  import opened TupleDescs
  import opened Tuples
  import opened DbIterators

  // ---------------------------------------------------------------------------
  // TupleComparator

  /** TupleComparator.compare(o1, o2): 0 when the two order-by fields are EQUALS, else
      1 or -1 by GREATER_THAN, negated when descending. Reading either field, a null
      first field, and fields the first cannot compare with all throw. */
  function Compare(o1: Row, o2: Row, field: int, asc: bool): (r: Result<int>)
    requires Sized(o1) && Sized(o2)
    ensures r.Ok? <==> 0 <= field < |o1.fields| && field < |o2.fields| &&
                       o1.fields[field].Some? && o2.fields[field].Some? &&
                       TypeOf(o1.fields[field].value) == TypeOf(o2.fields[field].value)
    ensures r.Ok? ==> r.value in {-1, 0, 1}
  {
    var t1 := GetFieldOf(o1, field);
    var t2 := GetFieldOf(o2, field);
    if t1.Err? then Err(t1.error)
    else if t2.Err? then Err(t2.error)
    else if t1.value.None? then Err(NullPointer)
    else
      var eq := FieldCompare(t1.value.value, Equals, t2.value);
      var gt := FieldCompare(t1.value.value, GreaterThan, t2.value);
      if eq.Err? then Err(eq.error)
      else if eq.value then Ok(0)
      else if gt.Ok? && gt.value then Ok(if asc then 1 else -1)
      else Ok(if asc then -1 else 1)
  }

  /** The tuple has a set order-by field of the given type. */
  predicate Keyed(row: Row, field: int, kind: FieldType) {
    Sized(row) && 0 <= field < |row.fields| && row.fields[field].Some? &&
    TypeOf(row.fields[field].value) == kind
  }

  predicate AllKeyed(s: seq<Row>, field: int, kind: FieldType) {
    forall i :: 0 <= i < |s| ==> Keyed(s[i], field, kind)
  }

  /** compare(a, b) <= 0: a may come before b. */
  predicate NotAfter(a: Row, b: Row, field: int, asc: bool) {
    Sized(a) && Sized(b) && Compare(a, b, field, asc).Ok? && Compare(a, b, field, asc).value <= 0
  }

  /** The comparator is the int order, or for strings the lexicographic order of
      compareTo, ascending when asc and descending otherwise. */
  lemma CompareMeaning(a: Row, b: Row, field: int, asc: bool, kind: FieldType)
    requires Keyed(a, field, kind) && Keyed(b, field, kind)
    ensures var x, y := a.fields[field].value, b.fields[field].value;
            var c := Compare(a, b, field, asc).value;
            (kind == IntType ==> c == (if x.n == y.n then 0 else if (x.n > y.n) == asc then 1 else -1)) &&
            (kind == StringType ==>
               c == (if x.sf.value == y.sf.value then 0 else if LexLess(y.sf.value, x.sf.value) == asc then 1 else -1))
  {
  }

  /** Swapping the arguments negates the comparison. */
  lemma CompareFlip(a: Row, b: Row, field: int, asc: bool, kind: FieldType)
    requires Keyed(a, field, kind) && Keyed(b, field, kind)
    ensures Compare(b, a, field, asc).value == -Compare(a, b, field, asc).value
  {
    CompareMeaning(a, b, field, asc, kind);
    CompareMeaning(b, a, field, asc, kind);
    if kind == StringType {
      LexLessTotal(a.fields[field].value.sf.value, b.fields[field].value.sf.value);
    }
  }

  /** The comparator orders tuples of one key type consistently. */
  lemma CompareTrans(a: Row, b: Row, c: Row, field: int, asc: bool, kind: FieldType)
    requires Keyed(a, field, kind) && Keyed(b, field, kind) && Keyed(c, field, kind)
    requires NotAfter(a, b, field, asc) && NotAfter(b, c, field, asc)
    ensures NotAfter(a, c, field, asc)
  {
    CompareMeaning(a, b, field, asc, kind);
    CompareMeaning(b, c, field, asc, kind);
    CompareMeaning(a, c, field, asc, kind);
    if kind == StringType {
      var x, y, z := a.fields[field].value.sf.value, b.fields[field].value.sf.value, c.fields[field].value.sf.value;
      LexLessTotal(x, y);
      LexLessTotal(y, z);
      LexLessTotal(x, z);
      if asc {
        if LexLess(x, y) && LexLess(y, z) {
          LexLessTrans(x, y, z);
        }
      } else {
        if LexLess(z, y) && LexLess(y, x) {
          LexLessTrans(z, y, x);
        }
      }
    }
  }

  // ---------------------------------------------------------------------------
  // Collections.sort

  /** Every tuple comes no later than every tuple after it. */
  ghost predicate SortedBy(s: seq<Row>, field: int, asc: bool) {
    forall i, j :: 0 <= i < j < |s| ==> NotAfter(s[i], s[j], field, asc)
  }

  /** x comes no later than the first tuple after it, and so than every tuple from there on. */
  lemma NotAfterRest(t: seq<Row>, x: Row, j: nat, field: int, asc: bool, kind: FieldType)
    requires AllKeyed(t, field, kind) && Keyed(x, field, kind) && SortedBy(t, field, asc) && j <= |t|
    requires j < |t| ==> !NotAfter(t[j], x, field, asc)
    ensures forall k :: j <= k < |t| ==> NotAfter(x, t[k], field, asc)
  {
    if j < |t| {
      CompareFlip(t[j], x, field, asc, kind);
      forall k | j <= k < |t|
        ensures NotAfter(x, t[k], field, asc)
      {
        if k > j {
          CompareTrans(x, t[j], t[k], field, asc, kind);
        }
      }
    }
  }

  /** Any two positions of t with x put in at j, where x comes no earlier than the tuples
      before j and no later than those from j on, are in order. */
  lemma SpliceOrdered(t: seq<Row>, x: Row, j: nat, a: nat, b: nat, field: int, asc: bool)
    requires SortedBy(t, field, asc) && j <= |t| && a < b <= |t|
    requires forall k :: 0 <= k < j ==> NotAfter(t[k], x, field, asc)
    requires forall k :: j <= k < |t| ==> NotAfter(x, t[k], field, asc)
    ensures NotAfter((t[..j] + [x] + t[j..])[a], (t[..j] + [x] + t[j..])[b], field, asc)
  {
    var u := t[..j] + [x] + t[j..];
    if b < j {
      assert u[a] == t[a] && u[b] == t[b];
    } else if b == j {
      assert u[a] == t[a] && u[b] == x;
    } else if a < j {
      assert u[a] == t[a] && u[b] == t[b - 1];
    } else if a == j {
      assert u[a] == x && u[b] == t[b - 1];
    } else {
      assert u[a] == t[a - 1] && u[b] == t[b - 1];
    }
  }

  /** x inserted at j, after the tuples not after it and before the first one after it,
      keeps a sorted sequence sorted. */
  lemma InsertKeepsSorted(t: seq<Row>, x: Row, j: nat, field: int, asc: bool, kind: FieldType)
    requires AllKeyed(t, field, kind) && Keyed(x, field, kind) && SortedBy(t, field, asc) && j <= |t|
    requires forall k :: 0 <= k < j ==> NotAfter(t[k], x, field, asc)
    requires j < |t| ==> !NotAfter(t[j], x, field, asc)
    ensures SortedBy(t[..j] + [x] + t[j..], field, asc)
  {
    var u := t[..j] + [x] + t[j..];
    NotAfterRest(t, x, j, field, asc, kind);
    forall a, b | 0 <= a < b < |u|
      ensures NotAfter(u[a], u[b], field, asc)
    {
      SpliceOrdered(t, x, j, a, b, field, asc);
    }
  }

  /** The two tuples' order-by fields are EQUALS. */
  predicate Tied(a: Row, b: Row, field: int, asc: bool) {
    Sized(a) && Sized(b) && Compare(a, b, field, asc) == Ok(0)
  }

  /** The tuples of s whose order-by field equals x's, in the order of s. */
  ghost function Ties(s: seq<Row>, x: Row, field: int, asc: bool): seq<Row> {
    if |s| == 0 then []
    else Ties(s[..|s| - 1], x, field, asc) + (if Tied(x, s[|s| - 1], field, asc) then [s[|s| - 1]] else [])
  }

  /** Collections.sort is stable: tuples with equal order-by fields keep the order
      they had in s. */
  ghost predicate Stable(s: seq<Row>, t: seq<Row>, field: int, asc: bool) {
    forall x :: Ties(t, x, field, asc) == Ties(s, x, field, asc)
  }

  lemma {:induction false} TiesAppend(a: seq<Row>, b: seq<Row>, x: Row, field: int, asc: bool)
    ensures Ties(a + b, x, field, asc) == Ties(a, x, field, asc) + Ties(b, x, field, asc)
  {
    if |b| > 0 {
      var ab := a + b;
      assert ab[..|ab| - 1] == a + b[..|b| - 1];
      assert ab[|ab| - 1] == b[|b| - 1];
      TiesAppend(a, b[..|b| - 1], x, field, asc);
    } else {
      assert a + b == a;
    }
  }

  lemma {:induction false} TiesNone(b: seq<Row>, x: Row, field: int, asc: bool)
    requires forall k :: 0 <= k < |b| ==> !Tied(x, b[k], field, asc)
    ensures Ties(b, x, field, asc) == []
  {
    if |b| > 0 {
      TiesNone(b[..|b| - 1], x, field, asc);
    }
  }

  /** Tuples tied with each other compare alike with every third tuple. */
  lemma TiedAlike(a: Row, b: Row, c: Row, field: int, asc: bool, kind: FieldType)
    requires Keyed(a, field, kind) && Keyed(b, field, kind) && Keyed(c, field, kind)
    requires Tied(a, b, field, asc)
    ensures Compare(a, c, field, asc) == Compare(b, c, field, asc)
    ensures Compare(c, a, field, asc) == Compare(c, b, field, asc)
  {
    CompareMeaning(a, b, field, asc, kind);
    CompareMeaning(a, c, field, asc, kind);
    CompareMeaning(b, c, field, asc, kind);
    CompareMeaning(c, a, field, asc, kind);
    CompareMeaning(c, b, field, asc, kind);
  }

  /** No tuple from the first one after x on is tied with a tuple tied with x. */
  lemma PastInsertNotTied(t: seq<Row>, x: Row, j: nat, y: Row, k: nat, field: int, asc: bool, kind: FieldType)
    requires AllKeyed(t, field, kind) && Keyed(x, field, kind) && SortedBy(t, field, asc)
    requires j <= k < |t| && !NotAfter(t[j], x, field, asc)
    requires Tied(y, x, field, asc)
    ensures !Tied(y, t[k], field, asc)
  {
    assert Keyed(y, field, kind);
    TiedAlike(y, x, t[j], field, asc, kind);
    CompareFlip(x, t[j], field, asc, kind);
    if k > j {
      assert NotAfter(t[j], t[k], field, asc);
    }
    if Tied(y, t[k], field, asc) {
      TiedAlike(y, t[k], t[j], field, asc, kind);
    }
  }

  /** The ties of a sequence with x spliced in at j. */
  lemma SpliceTies(t: seq<Row>, x: Row, j: nat, y: Row, field: int, asc: bool)
    requires j <= |t|
    ensures Ties(t, y, field, asc) == Ties(t[..j], y, field, asc) + Ties(t[j..], y, field, asc)
    ensures Ties(t[..j] + [x] + t[j..], y, field, asc) ==
            Ties(t[..j], y, field, asc) + (if Tied(y, x, field, asc) then [x] else []) + Ties(t[j..], y, field, asc)
  {
    var front, back := t[..j], t[j..];
    assert t == front + back;
    TiesAppend(front + [x], back, y, field, asc);
    TiesAppend(front, [x], y, field, asc);
    TiesAppend(front, back, y, field, asc);
    assert [x][..0] == [];
  }

  /** The tuples from j on hold no tie of a tuple tied with x. */
  lemma AfterInsertUntied(t: seq<Row>, x: Row, j: nat, y: Row, field: int, asc: bool, kind: FieldType)
    requires AllKeyed(t, field, kind) && Keyed(x, field, kind) && SortedBy(t, field, asc) && j <= |t|
    requires j < |t| ==> !NotAfter(t[j], x, field, asc)
    requires Tied(y, x, field, asc)
    ensures Ties(t[j..], y, field, asc) == []
  {
    var back := t[j..];
    forall k | 0 <= k < |back|
      ensures !Tied(y, back[k], field, asc)
    {
      PastInsertNotTied(t, x, j, y, j + k, field, asc, kind);
    }
    TiesNone(back, y, field, asc);
  }

  /** x not tied with y leaves the ties of y as they were. */
  lemma InsertUntiedTies(t: seq<Row>, x: Row, j: nat, y: Row, field: int, asc: bool)
    requires j <= |t| && !Tied(y, x, field, asc)
    ensures Ties(t[..j] + [x] + t[j..], y, field, asc) == Ties(t, y, field, asc)
  {
    SpliceTies(t, x, j, y, field, asc);
  }

  /** x tied with y and put in before the first tuple after it comes last among the
      ties of y. */
  lemma InsertTiedTies(t: seq<Row>, x: Row, j: nat, y: Row, field: int, asc: bool, kind: FieldType)
    requires AllKeyed(t, field, kind) && Keyed(x, field, kind) && SortedBy(t, field, asc) && j <= |t|
    requires j < |t| ==> !NotAfter(t[j], x, field, asc)
    requires Tied(y, x, field, asc)
    ensures Ties(t[..j] + [x] + t[j..], y, field, asc) == Ties(t, y, field, asc) + [x]
  {
    SpliceTies(t, x, j, y, field, asc);
    AfterInsertUntied(t, x, j, y, field, asc, kind);
    var front := Ties(t[..j], y, field, asc);
    assert front + [x] + [] == (front + []) + [x];
  }

  /** Putting x in before the first tuple after it puts it behind every tuple tied
      with it: the ties of any y gain x at their end, if x is tied with y. */
  lemma InsertTies(t: seq<Row>, x: Row, j: nat, y: Row, field: int, asc: bool, kind: FieldType)
    requires AllKeyed(t, field, kind) && Keyed(x, field, kind) && SortedBy(t, field, asc) && j <= |t|
    requires j < |t| ==> !NotAfter(t[j], x, field, asc)
    ensures Ties(t[..j] + [x] + t[j..], y, field, asc) ==
            Ties(t, y, field, asc) + (if Tied(y, x, field, asc) then [x] else [])
  {
    if Tied(y, x, field, asc) {
      InsertTiedTies(t, x, j, y, field, asc, kind);
    } else {
      InsertUntiedTies(t, x, j, y, field, asc);
    }
  }

  /** One insertion step of the sort: x goes in after every tuple not after it. */
  method Insert(t: seq<Row>, x: Row, field: int, asc: bool, ghost kind: FieldType) returns (u: seq<Row>)
    requires AllKeyed(t, field, kind) && Keyed(x, field, kind) && SortedBy(t, field, asc)
    ensures multiset(u) == multiset(t) + multiset{x}
    ensures AllKeyed(u, field, kind) && SortedBy(u, field, asc)
    ensures forall y :: Ties(u, y, field, asc) == Ties(t, y, field, asc) + (if Tied(y, x, field, asc) then [x] else [])
  {
    var j := 0;
    while j < |t| && Compare(t[j], x, field, asc).value <= 0
      invariant j <= |t|
      invariant forall k :: 0 <= k < j ==> NotAfter(t[k], x, field, asc)
    {
      j := j + 1;
    }
    InsertKeepsSorted(t, x, j, field, asc, kind);
    u := t[..j] + [x] + t[j..];
    SpliceKeepsRows(t, x, j, field, kind);
    forall y
      ensures Ties(u, y, field, asc) == Ties(t, y, field, asc) + (if Tied(y, x, field, asc) then [x] else [])
    {
      InsertTies(t, x, j, y, field, asc, kind);
    }
  }

  /** Putting x into t at j adds x to t's tuples, and keeps every tuple keyed. */
  lemma SpliceKeepsRows(t: seq<Row>, x: Row, j: nat, field: int, kind: FieldType)
    requires AllKeyed(t, field, kind) && Keyed(x, field, kind) && j <= |t|
    ensures multiset(t[..j] + [x] + t[j..]) == multiset(t) + multiset{x}
    ensures AllKeyed(t[..j] + [x] + t[j..], field, kind)
  {
    assert t == t[..j] + t[j..];
    var u := t[..j] + [x] + t[j..];
    forall i | 0 <= i < |u|
      ensures Keyed(u[i], field, kind)
    {
      if i < j {
        assert u[i] == t[i];
      } else if i > j {
        assert u[i] == t[i - 1];
      }
    }
  }

  /** Collections.sort(list, comparator): the same tuples, sorted by the comparator,
      with tied tuples in their original order. */
  method Sort(s: seq<Row>, field: int, asc: bool, ghost kind: FieldType) returns (t: seq<Row>)
    requires AllKeyed(s, field, kind)
    ensures multiset(t) == multiset(s) && SortedBy(t, field, asc) && AllKeyed(t, field, kind)
    ensures Stable(s, t, field, asc)
  {
    t := [];
    for i := 0 to |s|
      invariant multiset(t) == multiset(s[..i])
      invariant AllKeyed(t, field, kind) && SortedBy(t, field, asc)
      invariant Stable(s[..i], t, field, asc)
    {
      ghost var t0 := t;
      t := Insert(t, s[i], field, asc, kind);
      assert s[..i + 1] == s[..i] + [s[i]];
      forall y
        ensures Ties(t, y, field, asc) == Ties(s[..i + 1], y, field, asc)
      {
        assert s[..i + 1][..i] == s[..i];
      }
    }
    assert s[..|s|] == s;
  }

  // ---------------------------------------------------------------------------
  // The operator

  class OrderBy {
    const child: LookAhead
    const td: TupleDesc
    const orderByField: int
    const asc: bool
    /** childTups, and the list iterator `it` as the position it reads next (null: None). */
    var childTups: seq<Row>
    var it: Option<nat>

    ghost predicate Valid()
      reads this, child
    {
      child.Valid() && AllSized(child.rows) && AllSized(childTups) &&
      (it.Some? ==> it.value <= |childTups|)
    }

    constructor (orderbyField: int, asc: bool, child: LookAhead)
      requires child.Valid() && AllSized(child.rows)
      ensures Valid() && childTups == [] && it.None?
      ensures this.child == child && td == child.td && orderByField == orderbyField && this.asc == asc
    {
      this.child := child;
      td := child.td;
      orderByField := orderbyField;
      this.asc := asc;
      childTups := [];
      it := None;
    }

    /** open(): the child's tuples are appended to those already collected, which are not
        cleared, the whole list is sorted, and reading starts from its first tuple. */
    method Open(ghost kind: FieldType)
      requires Valid() && AllKeyed(childTups + child.Rewound(), orderByField, kind)
      modifies this`childTups, this`it, child
      ensures Valid() && it == Some(0) && child.Remaining() == []
      ensures multiset(childTups) == multiset(old(childTups) + old(child.Rewound()))
      ensures SortedBy(childTups, orderByField, asc)
      ensures Stable(old(childTups) + old(child.Rewound()), childTups, orderByField, asc)
    {
      child.Rewind();
      CollectChild();
      childTups := Sort(childTups, orderByField, asc, kind);
      it := Some(0);
    }

    /** The loop of open(): every tuple the child still hands out is added to childTups. */
    method CollectChild()
      requires Valid()
      modifies this`childTups, child
      ensures Valid() && child.Remaining() == [] && it == old(it)
      ensures childTups == old(childTups) + old(child.Remaining())
    {
      child.SizedStream();
      ghost var all := childTups + child.Remaining();
      var more := child.HasNext();
      while more
        invariant Valid() && AllSized(child.Remaining()) && it == old(it)
        invariant more <==> child.Remaining() != []
        invariant childTups + child.Remaining() == all
        decreases |child.Remaining()|
      {
        CollectOne();
        more := child.HasNext();
      }
      assert childTups + child.Remaining() == childTups;
    }

    /** One turn of open()'s loop: the child's next tuple is added to childTups. */
    method CollectOne()
      requires Valid() && AllSized(child.Remaining()) && child.Remaining() != []
      modifies this`childTups, child
      ensures Valid() && AllSized(child.Remaining()) && it == old(it)
      ensures childTups + child.Remaining() == old(childTups) + old(child.Remaining())
      ensures |child.Remaining()| < old(|child.Remaining()|)
    {
      ghost var before, rest := childTups, child.Remaining();
      AllSizedTail(rest);
      var t := child.Next();
      AllSizedSnoc(childTups, t.value);
      childTups := childTups + [t.value];
      MoveHead(before, rest);
    }

    /** readNext(): the next sorted tuple, null at the end and after close. */
    method ReadNext() returns (t: Option<Row>)
      requires Valid()
      modifies this`it
      ensures Valid()
      ensures old(it).Some? && old(it).value < |childTups| ==>
                t == Some(childTups[old(it).value]) && it == Some(old(it).value + 1)
      ensures old(it).None? || old(it).value == |childTups| ==> t.None? && it == old(it)
    {
      if it.Some? && it.value < |childTups| {
        t := Some(childTups[it.value]);
        it := Some(it.value + 1);
      } else {
        t := None;
      }
    }

    /** rewind(): reading starts again from the first sorted tuple. */
    method Rewind()
      requires Valid()
      modifies this`it
      ensures Valid() && it == Some(0)
    {
      it := Some(0);
    }

    /** close(): drops the list iterator, so readNext returns null. */
    method Close()
      requires Valid()
      modifies this`it
      ensures Valid() && it.None?
    {
      it := None;
    }
  }
}
