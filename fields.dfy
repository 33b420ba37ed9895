/** Column values: the two field kinds and their types, the comparison operators a
    field understands, and StringField's truncation, comparison and fixed-width
    serialisation. */
module Fields {
  import opened JavaLang

  /** simpledb.Type: the two column types. */
  datatype FieldType = IntType | StringType

  /** simpledb.Predicate.Op: the operators Field.compare accepts. */
  datatype PredOp = Equals | GreaterThan | LessThan | LessThanOrEq | GreaterThanOrEq | Like | NotEquals

  /** A StringField's state: the stored value and the maximum size it was built with. */
  datatype StringField = StringField(value: string, maxSize: int)

  /** A column value: an IntField or a StringField. */
  datatype Field = IntField(n: int) | Str(sf: StringField)

  /** Field.getType: a StringField reports STRING_TYPE, an IntField INT_TYPE. */
  function TypeOf(f: Field): (t: FieldType)
    ensures t == StringType <==> f.Str?
  {
    match f
    case IntField(_) => IntType
    case Str(_) => StringType
  }

  // ---------------------------------------------------------------------------
  // Construction

  /** new StringField(s, maxSize): the value is s cut to its first maxSize characters.
      A null s fails on s.length(), and a negative maxSize fails in substring. */
  function NewStringField(s: Option<string>, maxSize: int): (r: Result<StringField>)
    ensures r.Ok? <==> s.Some? && maxSize >= 0
    ensures r.Err? ==> r.error == (if s.None? then NullPointer else IndexOutOfBounds)
    ensures r.Ok? ==> r.value.maxSize == maxSize && |r.value.value| <= maxSize &&
                      r.value.value <= s.value &&
                      (|s.value| <= maxSize ==> r.value.value == s.value) &&
                      (|s.value| > maxSize ==> |r.value.value| == maxSize)
  {
    match s
    case None => Err(NullPointer)
    case Some(str) =>
      if |str| > maxSize then
        if maxSize < 0 then Err(IndexOutOfBounds) else Ok(StringField(str[..maxSize], maxSize))
      else
        Ok(StringField(str, maxSize))
  }

  // ---------------------------------------------------------------------------
  // Serialisation

  /** The four bytes DataOutputStream.writeInt emits: the int, big-endian, two's complement. */
  function IntBytes(n: int): (b: seq<byte>)
    ensures |b| == 4
  {
    var u := n % TWO_32;
    var q1 := u / 0x100;
    var q2 := q1 / 0x100;
    var q3 := q2 / 0x100;
    [q3 as byte, (q2 % 0x100) as byte, (q1 % 0x100) as byte, (u % 0x100) as byte]
  }

  /** DataInputStream.readInt over the first four bytes. */
  function ReadInt(b: seq<byte>): (n: int)
    requires |b| >= 4
    ensures IsInt(n)
  {
    var u := (b[0] as int) * 0x100_0000 + (b[1] as int) * 0x1_0000 + (b[2] as int) * 0x100 + b[3] as int;
    if u > INT_MAX then u - TWO_32 else u
  }

  /** The four base-256 digits of an unsigned 32-bit value add back up to it. */
  lemma DigitsAddUp(u: int)
    requires 0 <= u < TWO_32
    ensures var q1 := u / 0x100; var q2 := q1 / 0x100; var q3 := q2 / 0x100;
            q3 * 0x100_0000 + (q2 % 0x100) * 0x1_0000 + (q1 % 0x100) * 0x100 + u % 0x100 == u
  {
    var q1 := u / 0x100;
    var q2 := q1 / 0x100;
    var q3 := q2 / 0x100;
    assert u == 0x100 * q1 + u % 0x100;
    assert q1 == 0x100 * q2 + q1 % 0x100;
    assert q2 == 0x100 * q3 + q2 % 0x100;
  }

  lemma IntBytesRoundTrip(n: int)
    requires IsInt(n)
    ensures ReadInt(IntBytes(n)) == n
  {
    var u := n % TWO_32;
    assert u == if n >= 0 then n else n + TWO_32;
    DigitsAddUp(u);
  }

  /** DataOutputStream.writeBytes: each character loses its high eight bits. */
  function LowBytes(s: string): (b: seq<byte>)
    ensures |b| == |s|
  {
    seq(|s|, i requires 0 <= i < |s| => ((s[i] as int) % 0x100) as byte)
  }

  function Zeros(n: nat): (b: seq<byte>)
    ensures |b| == n && forall i :: 0 <= i < n ==> b[i] == 0
  {
    seq(n, _ => 0)
  }

  /** The value serialize() writes: cut to maxSize if longer. */
  function Written(f: StringField): string
    requires f.maxSize >= 0
  {
    if |f.value| > f.maxSize then f.value[..f.maxSize] else f.value
  }

  /** What serialize() writes for a field whose maxSize is not negative: the length of
      the written string, its bytes, and zero padding up to maxSize. */
  function Encoding(f: StringField): (e: seq<byte>)
    requires f.maxSize >= 0
    ensures |e| == f.maxSize + 4
  {
    var t := Written(f);
    IntBytes(|t|) + LowBytes(t) + Zeros(f.maxSize - |t|)
  }

  /** serialize(dos): exactly maxSize + 4 bytes, as Encoding says; a negative maxSize
      makes the substring call throw. The padding loop counts overflow down. */
  method Serialize(f: StringField) returns (r: Result<seq<byte>>)
    ensures r.Ok? <==> f.maxSize >= 0
    ensures r.Ok? ==> |r.value| == f.maxSize + 4 && r.value == Encoding(f)
    ensures r.Err? ==> r.error == IndexOutOfBounds
  {
    var s := f.value;
    var overflow := f.maxSize - |s|;
    if overflow < 0 {
      if f.maxSize < 0 {
        return Err(IndexOutOfBounds);
      }
      s := s[..f.maxSize];
    }
    assert s == Written(f);
    var out := IntBytes(|s|) + LowBytes(s);
    ghost var base := out;
    ghost var pad := overflow;
    while overflow > 0
      invariant pad >= 0 ==> 0 <= overflow <= pad && out == base + Zeros(pad - overflow)
      invariant pad < 0 ==> overflow == pad && out == base
    {
      out := out + [0];
      overflow := overflow - 1;
    }
    return Ok(out);
  }

  /** Reading a serialized StringField back: the length prefix, then that many bytes
      as characters. */
  function Deserialize(b: seq<byte>): (r: Option<string>)
  {
    if |b| < 4 then None
    else
      var n := ReadInt(b);
      if n < 0 || 4 + n > |b| then None
      else Some(seq(n, i requires 0 <= i < n => (b[4 + i] as int) as char))
  }

  /** Every character fits in the eight bits writeBytes keeps. */
  ghost predicate Latin1(s: string) {
    forall i :: 0 <= i < |s| ==> (s[i] as int) < 0x100
  }

  /** Reading back what serialize() wrote gives the (possibly cut) value. */
  lemma SerializeRoundTrip(f: StringField)
    requires 0 <= f.maxSize <= INT_MAX && Latin1(f.value)
    ensures Deserialize(Encoding(f)) == Some(Written(f))
  {
    var t := Written(f);
    var e := Encoding(f);
    IntBytesRoundTrip(|t|);
    assert e[..4] == IntBytes(|t|);
    assert ReadInt(e) == ReadInt(e[..4]);
    var d := seq(|t|, i requires 0 <= i < |t| => (e[4 + i] as int) as char);
    forall i | 0 <= i < |t|
      ensures d[i] == t[i]
    {
      assert e[4 + i] == LowBytes(t)[i];
    }
    assert d == t;
  }

  // ---------------------------------------------------------------------------
  // Comparison

  /** String.compareTo: the difference of the first differing characters, otherwise
      the difference of the lengths. */
  function CompareTo(a: string, b: string): int
  {
    if |a| == 0 || |b| == 0 then |a| - |b|
    else if a[0] != b[0] then a[0] as int - b[0] as int
    else CompareTo(a[1..], b[1..])
  }

  /** Lexicographic order: a is a proper prefix of b, or the first difference is smaller in a. */
  ghost predicate LexLess(a: string, b: string) {
    exists k :: 0 <= k <= |a| && k <= |b| && a[..k] == b[..k] &&
                (k == |a| < |b| || (k < |a| && k < |b| && a[k] < b[k]))
  }

  lemma LexLessEmpty(a: string, b: string)
    requires |a| == 0 || |b| == 0
    ensures LexLess(a, b) <==> |a| < |b|
  {
    if |a| < |b| {
      assert a[..0] == b[..0];
    }
  }

  lemma LexLessHead(a: string, b: string)
    requires |a| > 0 && |b| > 0 && a[0] != b[0]
    ensures LexLess(a, b) <==> a[0] < b[0]
  {
    if a[0] < b[0] {
      assert a[..0] == b[..0];
    }
    if LexLess(a, b) {
      var k :| 0 <= k <= |a| && k <= |b| && a[..k] == b[..k] &&
               (k == |a| < |b| || (k < |a| && k < |b| && a[k] < b[k]));
      if k > 0 {
        assert a[..k][0] == b[..k][0];
      }
    }
  }

  lemma LexLessTail(a: string, b: string)
    requires |a| > 0 && |b| > 0 && a[0] == b[0]
    ensures LexLess(a, b) <==> LexLess(a[1..], b[1..])
  {
    if LexLess(a, b) {
      var k :| 0 <= k <= |a| && k <= |b| && a[..k] == b[..k] &&
               (k == |a| < |b| || (k < |a| && k < |b| && a[k] < b[k]));
      assert 0 < k;
      assert a[1..][..k - 1] == a[..k][1..];
      assert b[1..][..k - 1] == b[..k][1..];
    }
    if LexLess(a[1..], b[1..]) {
      var k :| 0 <= k <= |a[1..]| && k <= |b[1..]| && a[1..][..k] == b[1..][..k] &&
               (k == |a[1..]| < |b[1..]| || (k < |a[1..]| && k < |b[1..]| && a[1..][k] < b[1..][k]));
      assert a[..k + 1] == [a[0]] + a[1..][..k];
      assert b[..k + 1] == [b[0]] + b[1..][..k];
    }
  }

  /** The sign of compareTo is the lexicographic order. */
  lemma {:induction false} CompareToSign(a: string, b: string)
    ensures CompareTo(a, b) == 0 <==> a == b
    ensures CompareTo(a, b) < 0 <==> LexLess(a, b)
    ensures CompareTo(a, b) > 0 <==> LexLess(b, a)
  {
    if |a| == 0 || |b| == 0 {
      LexLessEmpty(a, b);
      LexLessEmpty(b, a);
    } else if a[0] != b[0] {
      LexLessHead(a, b);
      LexLessHead(b, a);
    } else {
      CompareToSign(a[1..], b[1..]);
      LexLessTail(a, b);
      LexLessTail(b, a);
      assert a == [a[0]] + a[1..] && b == [b[0]] + b[1..];
    }
  }

  /** LexLess is transitive. */
  lemma {:induction false} LexLessTrans(a: string, b: string, c: string)
    requires LexLess(a, b) && LexLess(b, c)
    ensures LexLess(a, c)
    decreases |a|
  {
    if |a| == 0 {
      LexLessEmpty(a, c);
    } else {
      if a[0] != b[0] {
        LexLessHead(a, b);
      } else {
        LexLessTail(a, b);
      }
      if b[0] != c[0] {
        LexLessHead(b, c);
      } else {
        LexLessTail(b, c);
      }
      if a[0] != c[0] {
        LexLessHead(a, c);
      } else {
        LexLessTail(a, c);
        LexLessTrans(a[1..], b[1..], c[1..]);
      }
    }
  }

  /** Two distinct strings are ordered one way or the other, not both. */
  lemma LexLessTotal(a: string, b: string)
    ensures a != b <==> LexLess(a, b) || LexLess(b, a)
    ensures !(LexLess(a, b) && LexLess(b, a))
  {
    CompareToSign(a, b);
  }

  predicate OccursAt(s: string, sub: string, j: int) {
    0 <= j && j + |sub| <= |s| && s[j..j + |sub|] == sub
  }

  /** String.indexOf(sub) searching from position i: the first occurrence, or -1. */
  function IndexOfFrom(s: string, sub: string, i: nat): (r: int)
    requires i <= |s| + 1
    decreases |s| + 1 - i
    ensures r == -1 || (i <= r && OccursAt(s, sub, r))
    ensures r == -1 <==> forall j :: i <= j ==> !OccursAt(s, sub, j)
    ensures r != -1 ==> forall j :: i <= j < r ==> !OccursAt(s, sub, j)
  {
    if i + |sub| > |s| then -1
    else if s[i..i + |sub|] == sub then i
    else IndexOfFrom(s, sub, i + 1)
  }

  /** sub occurs somewhere in s. */
  ghost predicate IsSubstring(sub: string, s: string) {
    exists j :: OccursAt(s, sub, j)
  }

  /** StringField.compare(op, val): compareTo drives the six orderings, LIKE is a
      substring search. A null val fails reading its value; an IntField fails the cast. */
  function StringCompare(f: StringField, op: PredOp, val: Option<Field>): (r: Result<bool>)
    ensures r.Err? <==> val.None? || val.value.IntField?
    ensures r.Err? ==> r.error == (if val.None? then NullPointer else ClassCast)
    ensures r.Ok? ==>
      var a := f.value;
      var b := val.value.sf.value;
      match op
      case Equals => r.value <==> a == b
      case NotEquals => r.value <==> a != b
      case GreaterThan => r.value <==> LexLess(b, a)
      case GreaterThanOrEq => r.value <==> LexLess(b, a) || a == b
      case LessThan => r.value <==> LexLess(a, b)
      case LessThanOrEq => r.value <==> LexLess(a, b) || a == b
      case Like => r.value <==> IsSubstring(b, a)
  {
    match val
    case None => Err(NullPointer)
    case Some(IntField(_)) => Err(ClassCast)
    case Some(Str(other)) =>
      var cmp := CompareTo(f.value, other.value);
      CompareToSign(f.value, other.value);
      match op
      case Equals => Ok(cmp == 0)
      case NotEquals => Ok(cmp != 0)
      case GreaterThan => Ok(cmp > 0)
      case GreaterThanOrEq => Ok(cmp >= 0)
      case LessThan => Ok(cmp < 0)
      case LessThanOrEq => Ok(cmp <= 0)
      case Like => Ok(IndexOfFrom(f.value, other.value, 0) >= 0)
  }

  /** StringField.equals(field): casts the argument and compares the stored values. */
  function StringEquals(f: StringField, other: Option<Field>): (r: Result<bool>)
    ensures r == Ok(true) <==> exists g :: other == Some(Str(g)) && g.value == f.value
  {
    match other
    case None => Err(NullPointer)
    case Some(IntField(_)) => Err(ClassCast)
    case Some(Str(g)) => Ok(g.value == f.value)
  }

  /** equals agrees with compare under EQUALS, errors included. */
  lemma EqualsIsCompareEquals(f: StringField, other: Option<Field>)
    ensures StringEquals(f, other) == StringCompare(f, Equals, other)
  {
    if other.Some? && other.value.Str? {
      CompareToSign(f.value, other.value.sf.value);
    }
  }

  /** IntField.compare (IntField itself is not part of this model): the integer
      comparison for each operator, LIKE as equality; the argument must be an IntField. */
  function IntCompare(n: int, op: PredOp, val: Option<Field>): (r: Result<bool>)
    ensures r.Err? <==> val.None? || val.value.Str?
  {
    match val
    case None => Err(NullPointer)
    case Some(Str(_)) => Err(ClassCast)
    case Some(IntField(m)) =>
      match op
      case Equals => Ok(n == m)
      case NotEquals => Ok(n != m)
      case GreaterThan => Ok(n > m)
      case GreaterThanOrEq => Ok(n >= m)
      case LessThan => Ok(n < m)
      case LessThanOrEq => Ok(n <= m)
      case Like => Ok(n == m)
  }

  /** Field.compare, dispatched on the receiver's kind. */
  function FieldCompare(f: Field, op: PredOp, val: Option<Field>): Result<bool>
  {
    match f
    case IntField(n) => IntCompare(n, op, val)
    case Str(s) => StringCompare(s, op, val)
  }
}
