/** The schema of a tuple: its column types and, optionally, its column names. */
module TupleDescs {
  import opened JavaLang
  import opened Fields

  /** typeAr and fieldAr. The name array is a Java array that may be null (None), and
      each of its entries may be null as well. */
  datatype TupleDesc = TupleDesc(types: seq<FieldType>, names: Option<seq<Option<string>>>)

  /** A name array, when there is one, has an entry for every column. The constructor
      does not check this: a shorter array makes reading a name past its end throw. */
  predicate NamesFit(td: TupleDesc) {
    td.names.Some? ==> |td.names.value| >= |td.types|
  }

  /** new TupleDesc(typeAr, fieldAr): the arrays are copied. Fewer than one type ends in
      exit, and so does a null name array, whose clone throws inside the catch-all. */
  function NewTupleDesc(types: seq<FieldType>, names: Option<seq<Option<string>>>): (r: Result<TupleDesc>)
    ensures r.Ok? <==> |types| >= 1 && names.Some?
    ensures r.Ok? ==> r.value.types == types && r.value.names == names
    ensures r.Err? ==> r.error == ProcessExit
  {
    if |types| < 1 || names.None? then Err(ProcessExit) else Ok(TupleDesc(types, names))
  }

  /** new TupleDesc(typeAr): unnamed columns; fewer than one type ends in exit. */
  function NewUnnamedTupleDesc(types: seq<FieldType>): (r: Result<TupleDesc>)
    ensures r.Ok? <==> |types| >= 1
    ensures r.Ok? ==> r.value.types == types && r.value.names.None?
    ensures r.Err? ==> r.error == ProcessExit
  {
    if |types| < 1 then Err(ProcessExit) else Ok(TupleDesc(types, None))
  }

  /** getFieldName(i): an index at or past numFields() throws NoSuchElementException;
      without names the answer is null (even for a negative index); an index outside
      the name array throws from the array access. */
  function GetFieldName(td: TupleDesc, i: int): (r: Result<Option<string>>)
    ensures r.Ok? <==> i < |td.types| && (td.names.None? || 0 <= i < |td.names.value|)
    ensures r.Err? ==> r.error == (if i >= |td.types| then NoSuchElement else IndexOutOfBounds)
    ensures r.Ok? && td.names.None? ==> r.value.None?
    ensures r.Ok? && td.names.Some? ==> r.value == td.names.value[i]
  {
    if i >= |td.types| then Err(NoSuchElement)
    else if td.names.None? then Ok(None)
    else if i < 0 || i >= |td.names.value| then Err(IndexOutOfBounds)
    else Ok(td.names.value[i])
  }

  /** getType(i): NoSuchElementException at or past numFields(), an array-index failure
      below zero, otherwise the i-th type. */
  function GetType(td: TupleDesc, i: int): (r: Result<FieldType>)
    ensures r.Ok? <==> 0 <= i < |td.types|
    ensures r.Ok? ==> r.value == td.types[i]
    ensures r.Err? ==> r.error == (if i >= |td.types| then NoSuchElement else IndexOutOfBounds)
  {
    if i >= |td.types| then Err(NoSuchElement)
    else if i < 0 then Err(IndexOutOfBounds)
    else Ok(td.types[i])
  }

  // ---------------------------------------------------------------------------
  // nameToId

  /** The name with everything up to and including its first '.' removed. */
  function Unqualified(name: string): string {
    var dot := IndexOfFrom(name, ['.'], 0);
    if dot != -1 then name[dot + 1..] else name
  }

  /** A qualified name "table.column" whose table part has no dot loses exactly
      "table." (the column part may contain further dots). */
  lemma UnqualifiedDropsTablePrefix(table: string, column: string)
    requires forall k :: 0 <= k < |table| ==> table[k] != '.'
    ensures Unqualified(table + ['.'] + column) == column
  {
    var name := table + ['.'] + column;
    assert name[|table|..|table| + 1] == ['.'];
    assert OccursAt(name, ['.'], |table|);
    forall j | 0 <= j < |table|
      ensures !OccursAt(name, ['.'], j)
    {
      assert name[j..j + 1][0] == table[j];
    }
    var dot := IndexOfFrom(name, ['.'], 0);
    assert dot == |table|;
    assert name[|table| + 1..] == column;
  }

  /** A name without a dot is used as it is. */
  lemma UnqualifiedPlainName(name: string)
    requires forall k :: 0 <= k < |name| ==> name[k] != '.'
    ensures Unqualified(name) == name
  {
    forall j | 0 <= j
      ensures !OccursAt(name, ['.'], j)
    {
      if j + 1 <= |name| {
        assert name[j..j + 1][0] == name[j];
      }
    }
  }

  /** nameToId(name): the first index whose name equals the unqualified name; a null
      name, a missing name array or no match throws NoSuchElementException. */
  method NameToId(td: TupleDesc, name: Option<string>) returns (r: Result<int>)
    ensures r.Ok? ==> name.Some? && td.names.Some? && 0 <= r.value < |td.names.value| &&
                      td.names.value[r.value] == Some(Unqualified(name.value)) &&
                      forall j :: 0 <= j < r.value ==> td.names.value[j] != Some(Unqualified(name.value))
    ensures r.Err? ==> r.error == NoSuchElement &&
                       (name.None? || td.names.None? ||
                        forall j :: 0 <= j < |td.names.value| ==> td.names.value[j] != Some(Unqualified(name.value)))
  {
    if name.None? || td.names.None? {
      return Err(NoSuchElement);
    }
    var n := name.value;
    var dotIndex := IndexOfFrom(n, ['.'], 0);
    if dotIndex != -1 {
      n := n[dotIndex + 1..];
    }
    assert n == Unqualified(name.value);
    var x := FindName(td.names.value, n);
    if x == -1 {
      return Err(NoSuchElement);
    }
    return Ok(x);
  }

  /** The loop of nameToId: the first index of the name array holding n, or -1. */
  method FindName(fieldAr: seq<Option<string>>, n: string) returns (x: int)
    ensures -1 <= x < |fieldAr|
    ensures x >= 0 ==> fieldAr[x] == Some(n) && forall j :: 0 <= j < x ==> fieldAr[j] != Some(n)
    ensures x == -1 ==> forall j :: 0 <= j < |fieldAr| ==> fieldAr[j] != Some(n)
  {
    for i := 0 to |fieldAr|
      invariant forall j :: 0 <= j < i ==> fieldAr[j] != Some(n)
    {
      if fieldAr[i] == Some(n) {
        return i;
      }
    }
    return -1;
  }

  // ---------------------------------------------------------------------------
  // getSize

  /** The sum of the columns' lengths; `len` is Type.getLen, which is not part of this model. */
  function Size(types: seq<FieldType>, len: FieldType -> int): int {
    if |types| == 0 then 0 else Size(types[..|types| - 1], len) + len(types[|types| - 1])
  }

  lemma {:induction false} SizeAppend(a: seq<FieldType>, b: seq<FieldType>, len: FieldType -> int)
    ensures Size(a + b, len) == Size(a, len) + Size(b, len)
    decreases |b|
  {
    if |b| > 0 {
      assert (a + b)[..|a + b| - 1] == a + b[..|b| - 1];
      SizeAppend(a, b[..|b| - 1], len);
    } else {
      assert a + b == a;
    }
  }

  /** With every length positive, a longer schema is strictly bigger. */
  lemma {:induction false} SizePositive(types: seq<FieldType>, len: FieldType -> int)
    requires forall t :: len(t) > 0
    ensures |types| > 0 ==> Size(types, len) > 0
    ensures |types| == 0 ==> Size(types, len) == 0
  {
    if |types| > 0 {
      SizePositive(types[..|types| - 1], len);
    }
  }

  /** getSize(): the loop adds up the column lengths. */
  method GetSize(td: TupleDesc, len: FieldType -> int) returns (size: int)
    ensures size == Size(td.types, len)
  {
    size := 0;
    for x := 0 to |td.types|
      invariant size == Size(td.types[..x], len)
    {
      assert td.types[..x + 1][..x] == td.types[..x];
      size := size + len(td.types[x]);
    }
    assert td.types[..|td.types|] == td.types;
  }

  // ---------------------------------------------------------------------------
  // equals

  /** What TupleDesc.equals(Object) can be handed. */
  datatype DescArg = NullRef | DescRef(td: TupleDesc) | OtherObject

  /** equals(o): false for null, another class or a different size; otherwise the types
      are compared position by position over this schema's columns, the first mismatch
      answering false, and running off the end of a shorter o's array throwing. */
  ghost function EqualsResult(td: TupleDesc, o: DescArg, len: FieldType -> int): Result<bool> {
    if !o.DescRef? || Size(o.td.types, len) != Size(td.types, len) then Ok(false)
    else if |td.types| <= |o.td.types| then Ok(td.types == o.td.types[..|td.types|])
    else if o.td.types == td.types[..|o.td.types|] then Err(IndexOutOfBounds)
    else Ok(false)
  }

  method Equals(td: TupleDesc, o: DescArg, len: FieldType -> int) returns (r: Result<bool>)
    ensures r == EqualsResult(td, o, len)
  {
    if !o.DescRef? {
      return Ok(false);
    }
    var other := o.td;
    var otherSize := GetSize(other, len);
    var thisSize := GetSize(td, len);
    if otherSize != thisSize {
      return Ok(false);
    }
    for x := 0 to |td.types|
      invariant x <= |other.types| && td.types[..x] == other.types[..x]
    {
      if x >= |other.types| {
        assert other.types == td.types[..|other.types|];
        return Err(IndexOutOfBounds);
      }
      if td.types[x] != other.types[x] {
        assert td.types[x] == td.types[..|td.types|][x];
        if |td.types| <= |other.types| {
          assert td.types[..|td.types|][x] != other.types[..|td.types|][x];
        } else {
          assert td.types[..|other.types|][x] != other.types[x];
        }
        return Ok(false);
      }
      assert td.types[..x + 1] == td.types[..x] + [td.types[x]];
      assert other.types[..x + 1] == other.types[..x] + [other.types[x]];
    }
    assert td.types[..|td.types|] == td.types;
    return Ok(true);
  }

  /** With positive column lengths, equals never throws and holds exactly for another
      TupleDesc with the same types: the names play no part. */
  lemma EqualsIgnoresNames(td: TupleDesc, o: DescArg, len: FieldType -> int)
    requires forall t :: len(t) > 0
    ensures EqualsResult(td, o, len) == Ok(o.DescRef? && o.td.types == td.types)
  {
    if o.DescRef? {
      var a := td.types;
      var b := o.td.types;
      if |a| <= |b| && a == b[..|a|] {
        assert b == a + b[|a|..];
        SizeAppend(a, b[|a|..], len);
        SizePositive(b[|a|..], len);
      } else if |b| < |a| && b == a[..|b|] {
        assert a == b + a[|b|..];
        SizeAppend(b, a[|b|..], len);
        SizePositive(a[|b|..], len);
      }
    }
  }

  // ---------------------------------------------------------------------------
  // combine

  /** The names a schema contributes to a combination: its own, or nulls. */
  function NameSlots(td: TupleDesc): (s: seq<Option<string>>)
    requires NamesFit(td)
    ensures |s| == |td.types|
  {
    if td.names.Some? then td.names.value[..|td.types|] else seq(|td.types|, _ => None)
  }

  /** TupleDesc.combine(td1, td2) as a value: the types concatenated; no names when
      neither side has any, otherwise both sides' names with nulls for a side without;
      a name array shorter than its side's types throws while being copied. */
  function Combined(td1: TupleDesc, td2: TupleDesc): Result<TupleDesc>
  {
    var types := td1.types + td2.types;
    if td1.names.None? && td2.names.None? then NewUnnamedTupleDesc(types)
    else if !NamesFit(td1) || !NamesFit(td2) then Err(IndexOutOfBounds)
    else NewTupleDesc(types, Some(NameSlots(td1) + NameSlots(td2)))
  }

  /** combine: two copy loops for the types and, when either side is named, two for the names. */
  method Combine(td1: TupleDesc, td2: TupleDesc) returns (r: Result<TupleDesc>)
    ensures r == Combined(td1, td2)
  {
    var n1 := |td1.types|;
    var newTdNumFields := n1 + |td2.types|;
    var newTdTypeAr := new FieldType[newTdNumFields](_ => IntType);
    for x := 0 to n1
      invariant forall k :: 0 <= k < x ==> newTdTypeAr[k] == td1.types[k]
    {
      newTdTypeAr[x] := td1.types[x];
    }
    for x := n1 to newTdNumFields
      invariant forall k :: 0 <= k < n1 ==> newTdTypeAr[k] == td1.types[k]
      invariant forall k :: n1 <= k < x ==> newTdTypeAr[k] == td2.types[k - n1]
    {
      newTdTypeAr[x] := td2.types[x - n1];
    }
    var types := newTdTypeAr[..];
    assert types == td1.types + td2.types;
    if td1.names.None? && td2.names.None? {
      return NewUnnamedTupleDesc(types);
    }
    var newTdFieldAr := new Option<string>[newTdNumFields](_ => None);
    for x := 0 to n1
      invariant td1.names.Some? ==> x <= |td1.names.value|
      invariant forall k :: 0 <= k < x ==>
        newTdFieldAr[k] == if td1.names.None? then None else td1.names.value[k]
    {
      if td1.names.Some? && x >= |td1.names.value| {
        return Err(IndexOutOfBounds);
      }
      newTdFieldAr[x] := if td1.names.None? then None else td1.names.value[x];
    }
    assert NamesFit(td1);
    for x := n1 to newTdNumFields
      invariant td2.names.Some? ==> x - n1 <= |td2.names.value|
      invariant forall k :: 0 <= k < n1 ==> newTdFieldAr[k] == NameSlots(td1)[k]
      invariant forall k :: n1 <= k < x ==>
        newTdFieldAr[k] == if td2.names.None? then None else td2.names.value[k - n1]
    {
      if td2.names.Some? && x - n1 >= |td2.names.value| {
        return Err(IndexOutOfBounds);
      }
      newTdFieldAr[x] := if td2.names.None? then None else td2.names.value[x - n1];
    }
    assert newTdFieldAr[..] == NameSlots(td1) + NameSlots(td2);
    return NewTupleDesc(types, Some(newTdFieldAr[..]));
  }

  /** The combination has td1's columns first and td2's after them: types, names
      (null for a side without names) and the size all add up. */
  lemma CombinedColumns(td1: TupleDesc, td2: TupleDesc, len: FieldType -> int)
    ensures Combined(td1, td2).Ok? <==> |td1.types| + |td2.types| >= 1 && NamesFit(td1) && NamesFit(td2)
    ensures Combined(td1, td2).Err? ==>
              Combined(td1, td2).error == (if NamesFit(td1) && NamesFit(td2) then ProcessExit else IndexOutOfBounds)
    ensures Combined(td1, td2).Ok? ==>
      var c := Combined(td1, td2).value;
      NamesFit(c) && |c.types| == |td1.types| + |td2.types| &&
      Size(c.types, len) == Size(td1.types, len) + Size(td2.types, len) &&
      (forall i :: 0 <= i < |td1.types| ==>
         GetType(c, i) == GetType(td1, i) && GetFieldName(c, i) == GetFieldName(td1, i)) &&
      (forall i :: |td1.types| <= i < |c.types| ==>
         GetType(c, i) == GetType(td2, i - |td1.types|) &&
         GetFieldName(c, i) == GetFieldName(td2, i - |td1.types|))
  {
    SizeAppend(td1.types, td2.types, len);
  }

  // ---------------------------------------------------------------------------
  // toString

  /** One column as toString prints it: "type(name)", with "null" for a missing name;
      `typeName` is Type.toString, which is not part of this model. */
  function Entry(td: TupleDesc, x: nat, typeName: FieldType -> string): string
    requires x < |td.types| && (td.names.Some? ==> x < |td.names.value|)
  {
    var name := if td.names.None? then None else td.names.value[x];
    typeName(td.types[x]) + "(" + (if name.None? then "null" else name.value) + ")"
  }

  /** The text of the first k columns, each followed by a comma unless it is the last column. */
  function Described(td: TupleDesc, k: nat, typeName: FieldType -> string): string
    requires k <= |td.types| && (td.names.Some? ==> k <= |td.names.value|)
  {
    if k == 0 then ""
    else Described(td, k - 1, typeName) + Entry(td, k - 1, typeName) +
         (if k - 1 < |td.types| - 1 then "," else "")
  }

  /** Entries separated by single commas: the reference definition of a comma-separated list. */
  function JoinWithCommas(entries: seq<string>): string {
    if |entries| == 0 then ""
    else if |entries| == 1 then entries[0]
    else JoinWithCommas(entries[..|entries| - 1]) + "," + entries[|entries| - 1]
  }

  /** toString's text is the column entries separated by commas. */
  lemma {:induction false} DescribedIsJoin(td: TupleDesc, typeName: FieldType -> string, k: nat)
    requires NamesFit(td) && 0 < k <= |td.types|
    ensures Described(td, k, typeName) ==
            JoinWithCommas(seq(k, x requires 0 <= x < k => Entry(td, x, typeName))) +
            (if k < |td.types| then "," else "")
  {
    var entries := seq(k, x requires 0 <= x < k => Entry(td, x, typeName));
    if k > 1 {
      DescribedIsJoin(td, typeName, k - 1);
      assert entries[..k - 1] == seq(k - 1, x requires 0 <= x < k - 1 => Entry(td, x, typeName));
    }
  }

  /** toString(): a StringBuilder loop appending each entry and a separating comma; a
      name array shorter than the types throws when the loop reaches its end. */
  method ToString(td: TupleDesc, typeName: FieldType -> string) returns (r: Result<string>)
    ensures r == if NamesFit(td) then Ok(Described(td, |td.types|, typeName)) else Err(IndexOutOfBounds)
  {
    var s := "";
    for x := 0 to |td.types|
      invariant td.names.Some? ==> x <= |td.names.value|
      invariant s == Described(td, x, typeName)
    {
      if td.names.Some? && x >= |td.names.value| {
        return Err(IndexOutOfBounds);
      }
      var fieldName := if td.names.None? then None else td.names.value[x];
      var entry := typeName(td.types[x]) + "(" + (if fieldName.None? then "null" else fieldName.value) + ")";
      assert entry == Entry(td, x, typeName);
      s := s + entry;
      if x < |td.types| - 1 {
        s := s + ",";
      }
    }
    return Ok(s);
  }
}
