/** A histogram over a string column, kept as an IntHistogram of each string's first four
    characters read as a base-256 number. */
module StringHistograms {
  import opened JavaLang
  import opened Fields
  import opened IntHistograms

  /** The character at position j, or 0 past the end of s. */
  function Digit(s: string, j: nat): (d: int)
    ensures d >= 0
  {
    if j < |s| then s[j] as int else 0
  }

  /** 256^e. */
  function Pow256(e: nat): (p: int)
    ensures p >= 1
  {
    if e == 0 then 1 else 256 * Pow256(e - 1)
  }

  /** The first n of the four positions, each weighted 256^(3 - j), summed exactly. */
  function Leading(s: string, n: nat): int
    requires n <= 4
  {
    if n == 0 then 0 else Leading(s, n - 1) + Digit(s, n - 1) * Pow256(3 - (n - 1))
  }

  /** The four leading characters, left-aligned and zero-padded, as one base-256 number. */
  function Base256(s: string): (v: int)
    ensures v == Digit(s, 0) * 0x100_0000 + Digit(s, 1) * 0x1_0000 + Digit(s, 2) * 0x100 + Digit(s, 3)
  {
    assert Pow256(3) == 0x100_0000 by {
      assert Pow256(1) == 0x100 && Pow256(2) == 0x1_0000;
    }
    assert Leading(s, 1) == Digit(s, 0) * 0x100_0000;
    assert Leading(s, 2) == Leading(s, 1) + Digit(s, 1) * 0x1_0000;
    assert Leading(s, 3) == Leading(s, 2) + Digit(s, 2) * 0x100;
    Leading(s, 4)
  }

  /** What stringToInt(s) returns: that number as a Java int. */
  function StringValue(s: string): int {
    Wrap(Base256(s))
  }

  /** Characters the histogram orders faithfully: 7-bit ones. */
  predicate Ascii(s: string) {
    forall j :: 0 <= j < |s| ==> s[j] as int < 128
  }

  /** stringToInt(s): for i from 3 down to 0, the character at 3 - i, if there is one, is
      shifted left by 8i bits and added, all in int arithmetic. */
  method StringToInt(s: string) returns (v: int)
    ensures v == StringValue(s)
  {
    v := 0;
    var i := 3;
    while i >= 0
      invariant -1 <= i <= 3
      invariant v == Wrap(Leading(s, 3 - i))
    {
      if |s| > 3 - i {
        var ci := s[3 - i] as int;
        WrapAdd(Leading(s, 3 - i), Wrap(ci * Pow256(i)));
        WrapAdd(ci * Pow256(i), Leading(s, 3 - i));
        v := Wrap(v + Wrap(ci * Pow256(i)));
      }
      i := i - 1;
    }
  }

  /** For 7-bit strings the number fits in an int, so no wrap-around happens. */
  lemma AsciiFits(s: string)
    requires Ascii(s)
    ensures 0 <= Base256(s) <= INT_MAX && StringValue(s) == Base256(s)
  {
  }

  /** Whenever s comes no later than t, its number is no larger (for 7-bit strings). */
  lemma Base256Monotone(s: string, t: string)
    requires Ascii(s) && Ascii(t) && LexLess(s, t)
    ensures Base256(s) <= Base256(t)
  {
    var k :| 0 <= k <= |s| && k <= |t| && s[..k] == t[..k] &&
             (k == |s| < |t| || (k < |s| && k < |t| && s[k] < t[k]));
    assert forall j :: 0 <= j < k ==> s[j] == s[..k][j] == t[..k][j] == t[j];
    assert forall j :: 0 <= j < k ==> Digit(s, j) == Digit(t, j);
    assert forall j :: k == |s| && k <= j ==> Digit(s, j) == 0;
    assert forall j :: 0 <= j < 4 ==> Digit(s, j) < 128 && Digit(t, j) < 128;
  }

  /** The ordering stringToInt is documented to have: a smaller number means a
      lexicographically smaller string (for 7-bit strings). */
  lemma StringValueOrder(s1: string, s2: string)
    requires Ascii(s1) && Ascii(s2) && StringValue(s1) < StringValue(s2)
    ensures LexLess(s1, s2)
  {
    AsciiFits(s1);
    AsciiFits(s2);
    LexLessTotal(s1, s2);
    if LexLess(s2, s1) {
      Base256Monotone(s2, s1);
    }
  }

  /** maxVal() is stringToInt("zzzz"). */
  const MAX_VAL: int := 0x7a7a7a7a

  /** minVal(): stringToInt(""), which is 0. */
  method MinVal() returns (v: int)
    ensures v == 0
  {
    v := StringToInt("");
  }

  /** maxVal(): stringToInt("zzzz"). */
  method MaxVal() returns (v: int)
    ensures v == MAX_VAL
  {
    v := StringToInt("zzzz");
  }

  /** A string of characters up to 'z' maps into [minVal, maxVal]. */
  lemma StringValueBounds(s: string)
    requires forall j :: 0 <= j < |s| ==> s[j] <= 'z'
    ensures 0 <= StringValue(s) <= MAX_VAL
  {
    assert forall j :: 0 <= j < 4 ==> Digit(s, j) <= 122;
  }

  class StringHistogram {
    const hist: IntHistogram

    ghost predicate Valid()
      reads this, hist
    {
      hist.Valid() && hist.min == 0 && hist.max == MAX_VAL &&
      hist.bucketWidth == BucketWidth(hist.buckets, 0, MAX_VAL)
    }

    /** new StringHistogram(buckets): an IntHistogram over [minVal(), maxVal()]. */
    constructor (buckets: int)
      requires buckets > 0
      ensures Valid() && fresh(hist) && hist.buckets == buckets && hist.seen == []
    {
      var min := MinVal();
      var max := MaxVal();
      hist := new IntHistogram(buckets, min, max);
    }

    /** addValue(s): hist.addValue(stringToInt(s)). The outcome is the int histogram's for
        that value: a value whose bucket has no count throws NullPointerException, which
        happens for strings past "zzzz" and for those whose number wraps negative. */
    method AddValue(s: string) returns (r: Result<()>)
      requires Valid()
      modifies hist
      ensures Valid()
      ensures var b := BucketOf(0, hist.bucketWidth, StringValue(s));
              (r.Ok? <==> b.Ok? && b.value in old(hist.bucketCount)) &&
              (r.Err? ==> r.error == (if b.Err? then b.error else NullPointer)) &&
              (r.Ok? ==> hist.bucketCount == old(hist.bucketCount)[b.value := Wrap(old(hist.bucketCount)[b.value] + 1)] &&
                         hist.valueCount == Wrap(old(hist.valueCount) + 1))
      ensures r.Ok? ==> hist.seen == old(hist.seen) + [StringValue(s)]
      ensures r.Err? ==> hist.seen == old(hist.seen) && hist.bucketCount == old(hist.bucketCount) &&
                         hist.valueCount == old(hist.valueCount)
      ensures (forall j :: 0 <= j < |s| ==> s[j] <= 'z') ==> r.Ok?
    {
      var val := StringToInt(s);
      if forall j :: 0 <= j < |s| ==> s[j] <= 'z' {
        StringValueBounds(s);
        hist.AddValueInRange(val);
      }
      r := hist.AddValue(val);
    }

    /** addValue with the number clamped into [minVal(), maxVal()], the range the
        histogram was built for: every string is counted, one past "zzzz" in the last
        bucket and one whose number wraps negative in the first, and a string already in
        range is added exactly as addValue adds it. */
    method AddValueClamped(s: string) returns (r: Result<()>)
      requires Valid()
      modifies hist
      ensures Valid()
      ensures r.Ok? && hist.seen == old(hist.seen) + [Clamp(StringValue(s))]
      ensures 0 <= StringValue(s) <= MAX_VAL ==> hist.seen == old(hist.seen) + [StringValue(s)]
    {
      var val := StringToInt(s);
      var min := MinVal();
      var max := MaxVal();
      if val < min {
        val := min;
      } else if val > max {
        val := max;
      }
      hist.AddValueInRange(val);
      r := hist.AddValue(val);
    }
  }

  /** A number moved into [minVal(), maxVal()]. */
  function Clamp(v: int): (c: int)
    ensures 0 <= c <= MAX_VAL
    ensures 0 <= v <= MAX_VAL ==> c == v
  {
    if v < 0 then 0 else if v > MAX_VAL then MAX_VAL else v
  }

  /** With the 100 buckets table statistics use, the string "{", just past "zzzz", lands
      in bucket 100, which has no count, so addValue("{") throws NullPointerException. */
  lemma BraceMissesBuckets(h: StringHistogram)
    requires h.Valid() && h.hist.buckets == 100
    ensures BucketOf(0, h.hist.bucketWidth, StringValue("{")) == Ok(100)
    ensures 100 !in h.hist.bucketCount
  {
    assert StringValue("{") == 0x7b00_0000;
    assert h.hist.bucketWidth == 20548471 by {
      assert Wrap(MAX_VAL - 0) + 1 == 2054847099;
      assert CeilQuot(2054847099, 100) == 20548471;
    }
  }
}
