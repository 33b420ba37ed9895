/** What every aggregator shares: the operators, their lookup by index or by decimal
    text, how tuples are grouped, and what an aggregate over a group's values is. */
module Aggregation {
  import opened JavaLang
  import opened Fields

  /** The gbfield value meaning "no grouping". */
  const NO_GROUPING: int := -1

  /** Aggregator.Op, in declaration order. */
  datatype Op = MIN | MAX | SUM | AVG | COUNT

  /** The enum ordinal: MIN=0, MAX=1, SUM=2, AVG=3, COUNT=4. */
  function Ordinal(op: Op): (i: nat)
    ensures i < 5
  {
    match op
    case MIN => 0
    case MAX => 1
    case SUM => 2
    case AVG => 3
    case COUNT => 4
  }

  /** Op.getOp(i) = values()[i]: an index outside 0..4 fails the array access. */
  function GetOp(i: int): (r: Result<Op>)
    ensures r.Ok? <==> 0 <= i < 5
    ensures r.Ok? ==> Ordinal(r.value) == i
    ensures r.Err? ==> r.error == IndexOutOfBounds
  {
    if i == 0 then Ok(MIN)
    else if i == 1 then Ok(MAX)
    else if i == 2 then Ok(SUM)
    else if i == 3 then Ok(AVG)
    else if i == 4 then Ok(COUNT)
    else Err(IndexOutOfBounds)
  }

  /** getOp and ordinal are inverse: every operator is found again at its own index. */
  lemma GetOpOrdinal(op: Op)
    ensures GetOp(Ordinal(op)) == Ok(op)
  {
  }

  // ---------------------------------------------------------------------------
  // Integer.parseInt over ASCII decimal text

  predicate IsDigit(c: char) {
    '0' <= c <= '9'
  }

  predicate AllDigits(s: string) {
    forall i :: 0 <= i < |s| ==> IsDigit(s[i])
  }

  /** The number a run of decimal digits denotes. */
  function DigitsValue(s: string): (n: nat)
    requires AllDigits(s)
  {
    if |s| == 0 then 0
    else DigitsValue(s[..|s| - 1]) * 10 + (s[|s| - 1] as int - '0' as int)
  }

  /** Integer.parseInt(s): an optional '-' or '+' sign and at least one digit, whose
      value must fit an int; anything else, null included, throws NumberFormatException. */
  function ParseInt(s: Option<string>): (r: Result<int>)
    ensures r.Ok? ==> IsInt(r.value)
    ensures r.Err? ==> r.error == NumberFormat
    ensures s.None? || |s.value| == 0 ==> r.Err?
  {
    if s.None? || |s.value| == 0 then Err(NumberFormat)
    else
      var t := s.value;
      var signed := t[0] == '-' || t[0] == '+';
      var digits := if signed then t[1..] else t;
      if |digits| == 0 || !AllDigits(digits) then Err(NumberFormat)
      else
        var n: int := DigitsValue(digits);
        var v := if t[0] == '-' then -n else n;
        if IsInt(v) then Ok(v) else Err(NumberFormat)
  }

  /** The decimal digits of a natural number, most significant first (Integer.toString
      of a non-negative int). */
  function Decimal(n: nat): (s: string)
    ensures |s| > 0 && AllDigits(s)
  {
    var d := ['0' + (n % 10) as char];
    if n < 10 then d else Decimal(n / 10) + d
  }

  lemma {:induction false} DecimalValue(n: nat)
    ensures DigitsValue(Decimal(n)) == n
  {
    var s := Decimal(n);
    assert s[..|s| - 1] == (if n < 10 then [] else Decimal(n / 10));
    if n >= 10 {
      DecimalValue(n / 10);
    }
  }

  /** parseInt reads back what Integer.toString writes, for every non-negative int and,
      with a leading '-', every negative one. */
  lemma ParseDecimal(n: int)
    requires IsInt(n)
    ensures n >= 0 ==> ParseInt(Some(Decimal(n))) == Ok(n)
    ensures n < 0 ==> ParseInt(Some("-" + Decimal(-n))) == Ok(n)
  {
    if n >= 0 {
      DecimalValue(n);
      assert Decimal(n)[0] != '-' && Decimal(n)[0] != '+';
    } else {
      DecimalValue(-n);
      assert ("-" + Decimal(-n))[1..] == Decimal(-n);
    }
  }

  /** Op.getOp(String s) = getOp(Integer.parseInt(s)). */
  function GetOpByName(s: Option<string>): (r: Result<Op>)
    ensures ParseInt(s).Err? ==> r == Err(NumberFormat)
    ensures ParseInt(s).Ok? ==> r == GetOp(ParseInt(s).value)
  {
    var i := ParseInt(s);
    if i.Err? then Err(i.error) else GetOp(i.value)
  }

  /** Each operator is found by the decimal text of its ordinal. */
  lemma GetOpByOrdinalText(op: Op)
    ensures GetOpByName(Some(Decimal(Ordinal(op)))) == Ok(op)
  {
    ParseDecimal(Ordinal(op));
  }

  // ---------------------------------------------------------------------------
  // Groups

  /** A HashMap key of the aggregators: fields are equal keys when Field.equals says so,
      which compares the int value of an IntField and only the string of a StringField
      (not its maximum size); null is a key of its own. The map's lookup is taken to be
      total: the exception Java raises when a non-null key whose hash is 0 is compared
      with a stored null key is not part of this model. */
  datatype GroupKey = NullKey | IntKey(n: int) | StrKey(s: string)

  function KeyOf(f: Option<Field>): (k: GroupKey)
    ensures f.None? <==> k.NullKey?
  {
    match f
    case None => NullKey
    case Some(IntField(n)) => IntKey(n)
    case Some(Str(sf)) => StrKey(sf.value)
  }

  /** A string field keys the same group as another field exactly when
      StringField.equals holds between them. */
  lemma KeyOfIsStringEquals(sf: StringField, other: Option<Field>)
    ensures KeyOf(Some(Str(sf))) == KeyOf(other) <==> StringEquals(sf, other) == Ok(true)
  {
    if KeyOf(Some(Str(sf))) == KeyOf(other) {
      assert other == Some(Str(other.value.sf));
    }
  }

  // ---------------------------------------------------------------------------
  // The aggregate of a group

  /** getInitValueForOp: MAX_VALUE for MIN, MIN_VALUE for MAX, 0 for SUM, AVG and COUNT. */
  function InitValue(op: Op): (v: int)
    ensures IsInt(v)
    ensures op == MIN ==> v == INT_MAX
    ensures op == MAX ==> v == INT_MIN
    ensures op in {SUM, AVG, COUNT} ==> v == 0
  {
    match op
    case MIN => INT_MAX
    case MAX => INT_MIN
    case _ => 0
  }

  /** One merge step on the running int value: min, max, an int sum (AVG keeps the sum
      here and the count aside), or one more for COUNT. */
  function Step(op: Op, acc: int, v: int): int
  {
    match op
    case MIN => if acc <= v then acc else v
    case MAX => if acc >= v then acc else v
    case SUM => Wrap(acc + v)
    case AVG => Wrap(acc + v)
    case COUNT => Wrap(acc + 1)
  }

  /** The running value after merging vs, in order, into a new group. */
  function Fold(op: Op, vs: seq<int>): int
  {
    if |vs| == 0 then InitValue(op) else Step(op, Fold(op, vs[..|vs| - 1]), vs[|vs| - 1])
  }

  function Sum(vs: seq<int>): int {
    if |vs| == 0 then 0 else Sum(vs[..|vs| - 1]) + vs[|vs| - 1]
  }

  predicate AllInts(vs: seq<int>) {
    forall i :: 0 <= i < |vs| ==> IsInt(vs[i])
  }

  /** MIN yields the least of the values (MAX_VALUE for none), MAX the greatest. */
  lemma {:induction false} FoldMinMax(vs: seq<int>)
    requires AllInts(vs)
    ensures forall i :: 0 <= i < |vs| ==> Fold(MIN, vs) <= vs[i] && vs[i] <= Fold(MAX, vs)
    ensures |vs| > 0 ==> Fold(MIN, vs) in vs && Fold(MAX, vs) in vs
    ensures |vs| == 0 ==> Fold(MIN, vs) == INT_MAX && Fold(MAX, vs) == INT_MIN
  {
    if |vs| > 0 {
      var init := vs[..|vs| - 1];
      FoldMinMax(init);
      assert forall i :: 0 <= i < |init| ==> vs[i] == init[i];
      if |init| == 0 {
        assert Fold(MIN, vs) == vs[0] && Fold(MAX, vs) == vs[0];
      }
    }
  }

  /** SUM and AVG hold the int sum of the values, wrapped to 32 bits. */
  lemma {:induction false} FoldSum(vs: seq<int>)
    ensures Fold(SUM, vs) == Wrap(Sum(vs)) && Fold(AVG, vs) == Wrap(Sum(vs))
  {
    if |vs| > 0 {
      var init := vs[..|vs| - 1];
      var last := vs[|vs| - 1];
      FoldSum(init);
      WrapAdd(Sum(init), last);
    }
  }

  /** COUNT holds the number of values, wrapped to 32 bits. */
  lemma {:induction false} FoldCount(vs: seq<int>)
    ensures Fold(COUNT, vs) == Wrap(|vs|)
  {
    if |vs| > 0 {
      var init := vs[..|vs| - 1];
      FoldCount(init);
      WrapAdd(|init|, 1);
    }
  }

  /** The merged values of the aggregator test's tuples (1,2), (1,4), (1,6), (3,2):
      SUM gives 12 and 2, MIN 2 and 2, MAX 6 and 2, AVG 12/3 = 4 and 2/1 = 2. */
  lemma TestGroups()
    ensures Fold(SUM, [2, 4, 6]) == 12 && Fold(SUM, [2]) == 2
    ensures Fold(MIN, [2, 4, 6]) == 2 && Fold(MIN, [2]) == 2
    ensures Fold(MAX, [2, 4, 6]) == 6 && Fold(MAX, [2]) == 2
    ensures Fold(COUNT, [2, 4, 6]) == 3 && Quot(Fold(AVG, [2, 4, 6]), Fold(COUNT, [2, 4, 6])) == 4
    ensures Fold(COUNT, [2]) == 1 && Quot(Fold(AVG, [2]), Fold(COUNT, [2])) == 2
  {
    assert [2, 4, 6][..2] == [2, 4] && [2, 4][..1] == [2] && [2][..0] == [];
  }

  // ---------------------------------------------------------------------------
  // HashMap entry order

  /** The groups in the order a HashMap's entry iterator visits them: every key exactly
      once, in an order the model leaves open. */
  ghost predicate Enumerates(order: seq<GroupKey>, keys: set<GroupKey>) {
    (forall i, j :: 0 <= i < j < |order| ==> order[i] != order[j]) &&
    (forall k :: k in order <==> k in keys)
  }

  /** entrySet().iterator(): the keys, each once, in some order. */
  method EntryOrder(keys: set<GroupKey>) returns (order: seq<GroupKey>)
    ensures Enumerates(order, keys) && |order| == |keys|
  {
    order := [];
    var rest := keys;
    while rest != {}
      invariant rest <= keys
      invariant forall k :: k in order <==> k in keys - rest
      invariant forall i, j :: 0 <= i < j < |order| ==> order[i] != order[j]
      invariant |order| + |rest| == |keys|
      decreases |rest|
    {
      var k :| k in rest;
      order := order + [k];
      rest := rest - {k};
    }
  }
}
