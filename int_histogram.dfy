/** A fixed-width histogram over an int column, kept as a count per bucket. */
module IntHistograms {
  import opened JavaLang

  /** Math.ceil of x / b for a positive b, exactly. */
  function CeilQuot(x: int, b: int): (q: int)
    requires b > 0
    ensures q * b - b < x <= q * b
  {
    if x >= 0 then CeilDiv(x, b)
    else
      NatDivBounds(-x, b);
      assert (-((-x) / b)) * b == -(((-x) / b) * b);
      -((-x) / b)
  }

  /** (int) Math.ceil(x / (double) b) for a positive int b: the ceiling, saturated to the
      int range by the cast. The double quotient of two numbers below 2^32 is never close
      enough to an integer for its rounding to change the ceiling. */
  function CeilToInt(x: int, b: int): (w: int)
    requires b > 0
    ensures IsInt(w)
    ensures IsInt(CeilQuot(x, b)) ==> w == CeilQuot(x, b)
  {
    var c := CeilQuot(x, b);
    if c > INT_MAX then INT_MAX else if c < INT_MIN then INT_MIN else c
  }

  /** A product grows with its first factor when the second is not negative. */
  lemma MulMonotone(a: int, c: int, w: int)
    requires a <= c && w >= 0
    ensures a * w <= c * w
  {
    assert c * w - a * w == (c - a) * w;
  }

  /** The constructor's bucketWidth: ceil((max - min + 1.0) / buckets), where max - min is
      an int subtraction. */
  function BucketWidth(buckets: int, min: int, max: int): (w: int)
    requires buckets > 0
    ensures IsInt(w)
  {
    CeilToInt(Wrap(max - min) + 1, buckets)
  }

  /** With max - min + 1 an int, the buckets are at least one wide and together cover the
      range [min, max], and one bucket fewer would not. */
  lemma BucketWidthCovers(buckets: int, min: int, max: int)
    requires buckets > 0 && min <= max && IsInt(max - min + 1)
    ensures var w := BucketWidth(buckets, min, max);
            w >= 1 && w * buckets >= max - min + 1 && (w - 1) * buckets < max - min + 1
  {
    var x := max - min + 1;
    assert Wrap(max - min) + 1 == x;
    var q := CeilQuot(x, buckets);
    if q <= 0 {
      MulMonotone(q, 0, buckets);
    }
    if q > x {
      MulMonotone(x, q - 1, buckets);
      MulMonotone(1, buckets, x);
    }
    assert IsInt(q);
  }

  /** The bucket of v, as addValue and the estimates compute it: (int) Math.floor((v - min)
      / bucketWidth) with int subtraction and int division, so the quotient is already
      truncated toward zero when floor sees it. A zero width divides by zero. */
  function BucketOf(min: int, width: int, v: int): (r: Result<int>)
    ensures r.Err? <==> width == 0
    ensures r.Err? ==> r.error == Arithmetic
    ensures r.Ok? ==> r.value == Quot(Wrap(v - min), width)
  {
    if width == 0 then Err(Arithmetic) else Ok(Quot(Wrap(v - min), width))
  }

  /** Every value of [min, max] falls in one of the buckets 0..buckets-1. */
  lemma BucketInRange(buckets: int, min: int, max: int, v: int)
    requires buckets > 0 && min <= v <= max && IsInt(max - min + 1)
    ensures var b := BucketOf(min, BucketWidth(buckets, min, max), v);
            b.Ok? && 0 <= b.value < buckets
  {
    var w := BucketWidth(buckets, min, max);
    BucketWidthCovers(buckets, min, max);
    assert Wrap(v - min) == v - min;
    var q := Div(v - min, w);
    assert BucketOf(min, w, v) == Ok(q);
    if q >= buckets {
      MulMonotone(buckets, q, w);
    }
  }

  /** How many of the values seen fall in bucket b. */
  function Tally(min: int, width: int, seen: seq<int>, b: int): (n: nat)
    ensures n <= |seen|
  {
    if seen == [] then 0
    else Tally(min, width, seen[..|seen| - 1], b) + (if BucketOf(min, width, seen[|seen| - 1]) == Ok(b) then 1 else 0)
  }

  /** One count per bucket 0..buckets-1, each the number of values seen in it, and the
      total the number of values seen, as ints. */
  ghost predicate Tallied(buckets: int, min: int, width: int, counts: map<int, int>, total: int, seen: seq<int>) {
    (forall x :: x in counts <==> 0 <= x < buckets) &&
    (forall x :: x in counts ==> counts[x] == Wrap(Tally(min, width, seen, x))) &&
    total == Wrap(|seen|)
  }

  /** Counting v in its bucket b keeps the counts tallied. */
  lemma TallyStep(buckets: int, min: int, width: int, counts: map<int, int>, total: int, seen: seq<int>,
                  v: int, b: int, counts': map<int, int>, total': int, seen': seq<int>)
    requires Tallied(buckets, min, width, counts, total, seen)
    requires BucketOf(min, width, v) == Ok(b) && b in counts
    requires counts' == counts[b := Wrap(counts[b] + 1)] && total' == Wrap(total + 1) && seen' == seen + [v]
    ensures Tallied(buckets, min, width, counts', total', seen')
  {
    assert seen'[..|seen'| - 1] == seen;
    WrapAdd(Tally(min, width, seen, b), 1);
    WrapAdd(|seen|, 1);
  }

  /** What the out-of-range branches of the selectivity estimates give. The in-range
      answers are floating-point fractions of a bucket's count, which are not part of this
      model; only the bucket used is kept. */
  datatype Estimate = FromBucket(bucket: int) | Constant(value: int)

  class IntHistogram {
    const min: int
    const max: int
    const buckets: int
    const bucketWidth: int
    var bucketCount: map<int, int>
    var valueCount: int
    /** The values added so far. */
    ghost var seen: seq<int>

    /** One count per bucket 0..buckets-1, each the number of values added to it, and the
        total the number of values added, as ints. */
    ghost predicate Valid()
      reads this
    {
      buckets > 0 && Tallied(buckets, min, bucketWidth, bucketCount, valueCount, seen)
    }

    /** new IntHistogram(buckets, min, max): every bucket starts at 0, no value added. */
    constructor (buckets: int, min: int, max: int)
      requires buckets > 0
      ensures Valid() && seen == [] && valueCount == 0
      ensures forall x :: 0 <= x < buckets ==> x in bucketCount && bucketCount[x] == 0
      ensures this.buckets == buckets && this.min == min && this.max == max
      ensures bucketWidth == BucketWidth(buckets, min, max)
    {
      valueCount := 0;
      this.buckets := buckets;
      this.min := min;
      this.max := max;
      bucketWidth := BucketWidth(buckets, min, max);
      seen := [];
      var counts: map<int, int> := map[];
      for x := 0 to buckets
        invariant forall y :: y in counts <==> 0 <= y < x
        invariant forall y :: y in counts ==> counts[y] == 0
      {
        counts := counts[x := 0];
      }
      bucketCount := counts;
    }

    /** addValue(v): the count of v's bucket and the total go up by one. A bucket outside
        0..buckets-1 has no entry, whose null count throws on unboxing; a zero width throws
        on the division; either way nothing changes. */
    method AddValue(v: int) returns (r: Result<()>)
      requires Valid()
      modifies this`bucketCount, this`valueCount, this`seen
      ensures Valid()
      ensures var b := BucketOf(min, bucketWidth, v);
              (b.Err? ==> r == Err(b.error)) &&
              (b.Ok? && b.value !in old(bucketCount) ==> r == Err(NullPointer)) &&
              (b.Ok? && b.value in old(bucketCount) ==>
                 r.Ok? && bucketCount == old(bucketCount)[b.value := Wrap(old(bucketCount)[b.value] + 1)] &&
                 valueCount == Wrap(old(valueCount) + 1))
      ensures r.Ok? ==> seen == old(seen) + [v]
      ensures r.Err? ==> seen == old(seen) && bucketCount == old(bucketCount) && valueCount == old(valueCount)
    {
      var bucket := BucketOf(min, bucketWidth, v);
      if bucket.Err? {
        return Err(bucket.error);
      }
      if bucket.value !in bucketCount {
        return Err(NullPointer);
      }
      var b := bucket.value;
      ghost var counts, total, seen0 := bucketCount, valueCount, seen;
      bucketCount := bucketCount[b := Wrap(bucketCount[b] + 1)];
      valueCount := Wrap(valueCount + 1);
      seen := seen + [v];
      TallyStep(buckets, min, bucketWidth, counts, total, seen0, v, b, bucketCount, valueCount, seen);
      return Ok(());
    }

    /** The bucket of v, as the estimates compute it. */
    function Bucket(v: int): Result<int>
      reads this
    {
      BucketOf(min, bucketWidth, v)
    }

    /** _estimateEqualitySelectivity(v): a bucket outside the histogram estimates 0. */
    function EqualityEstimate(v: int): (e: Result<Estimate>)
      reads this
      ensures e.Err? <==> bucketWidth == 0
      ensures e.Ok? ==> var b := Bucket(v).value;
                        e.value == if 0 <= b < buckets then FromBucket(b) else Constant(0)
    {
      var bucket := Bucket(v);
      if bucket.Err? then Err(bucket.error)
      else if 0 <= bucket.value < buckets then Ok(FromBucket(bucket.value))
      else Ok(Constant(0))
    }

    /** _estimateStrictComparisonSelectivity(greaterThan, v): below the first bucket every
        value is greater and none smaller; past the last one, the other way round. */
    function StrictEstimate(greaterThan: bool, v: int): (e: Result<Estimate>)
      reads this
      ensures e.Err? <==> bucketWidth == 0
      ensures e.Ok? ==> var b := Bucket(v).value;
                        (0 <= b < buckets ==> e.value == FromBucket(b)) &&
                        (b < 0 ==> e.value == Constant(if greaterThan then 1 else 0)) &&
                        (b >= 0 && b >= buckets ==> e.value == Constant(if greaterThan then 0 else 1))
    {
      var bucket := Bucket(v);
      if bucket.Err? then Err(bucket.error)
      else if 0 <= bucket.value < buckets then Ok(FromBucket(bucket.value))
      else if bucket.value < 0 then Ok(Constant(if greaterThan then 1 else 0))
      else Ok(Constant(if greaterThan then 0 else 1))
    }

    /** _estimateEqualitySelectivity(v) with the floor taken of the exact quotient. */
    function FlooredEqualityEstimate(v: int): (e: Result<Estimate>)
      reads this
      ensures e.Err? <==> bucketWidth == 0
    {
      var bucket := FlooredBucketOf(min, bucketWidth, v);
      if bucket.Err? then Err(bucket.error)
      else if 0 <= bucket.value < buckets then Ok(FromBucket(bucket.value))
      else Ok(Constant(0))
    }

    /** _estimateStrictComparisonSelectivity(greaterThan, v) with the floor taken of the
        exact quotient. */
    function FlooredStrictEstimate(greaterThan: bool, v: int): (e: Result<Estimate>)
      reads this
      ensures e.Err? <==> bucketWidth == 0
    {
      var bucket := FlooredBucketOf(min, bucketWidth, v);
      if bucket.Err? then Err(bucket.error)
      else if 0 <= bucket.value < buckets then Ok(FromBucket(bucket.value))
      else if bucket.value < 0 then Ok(Constant(if greaterThan then 1 else 0))
      else Ok(Constant(if greaterThan then 0 else 1))
    }

    /** With the floor taken of the exact quotient, every value below min takes the
        out-of-range branches (equality 0, GREATER_THAN 1, LESS_THAN 0), and from min upward
        the estimates are the ones the code computes. */
    lemma FlooredEstimatesMeaning(v: int)
      requires bucketWidth > 0 && IsInt(v - min)
      ensures v < min ==> FlooredEqualityEstimate(v) == Ok(Constant(0)) &&
                          FlooredStrictEstimate(true, v) == Ok(Constant(1)) &&
                          FlooredStrictEstimate(false, v) == Ok(Constant(0))
      ensures v >= min ==> FlooredEqualityEstimate(v) == EqualityEstimate(v) &&
                           FlooredStrictEstimate(true, v) == StrictEstimate(true, v) &&
                           FlooredStrictEstimate(false, v) == StrictEstimate(false, v)
    {
      FlooredBelowMin(min, bucketWidth, v);
      if v >= min {
        FlooredAgreesFromMin(min, bucketWidth, v);
      }
    }

    /** Every value of [min, max] is counted: addValue succeeds on it. */
    lemma AddValueInRange(v: int)
      requires Valid() && bucketWidth == BucketWidth(buckets, min, max)
      requires min <= v <= max && IsInt(max - min + 1)
      ensures Bucket(v).Ok? && Bucket(v).value in bucketCount
    {
      BucketInRange(buckets, min, max, v);
    }

    /** A bucket's count is the number of values added to it, while that fits in an int. */
    lemma CountMeaning(b: int)
      requires Valid() && 0 <= b < buckets && |seen| <= INT_MAX
      ensures bucketCount[b] == Tally(min, bucketWidth, seen, b) && valueCount == |seen|
    {
      assert b in bucketCount;
      assert bucketCount[b] == Wrap(Tally(min, bucketWidth, seen, b));
    }
  }

  // ---------------------------------------------------------------------------
  // The bucket of a value below min

  /** The bucket index with the floor the code applies, taken of the exact quotient. */
  function FlooredBucketOf(min: int, width: int, v: int): (r: Result<int>)
    ensures r.Err? <==> width == 0
  {
    if width == 0 then Err(Arithmetic)
    else if width > 0 then Ok(Wrap(v - min) / width)
    else Ok((-Wrap(v - min)) / (-width))
  }

  /** With the floor applied to the exact quotient, a value below min (by an int
      difference) is in a negative bucket, so it takes the out-of-range branches: equality
      estimates 0 and GREATER_THAN estimates 1. */
  lemma FlooredBelowMin(min: int, width: int, v: int)
    requires width > 0 && IsInt(v - min)
    ensures FlooredBucketOf(min, width, v).value < 0 <==> v < min
  {
    var d := v - min;
    assert Wrap(d) == d;
    if d >= 0 {
      NatDivBounds(d, width);
    }
  }

  /** From min upward (by an int difference) the quotient is not negative, so the floor
      and the truncation agree. */
  lemma FlooredAgreesFromMin(min: int, width: int, v: int)
    requires width > 0 && IsInt(v - min) && v >= min
    ensures FlooredBucketOf(min, width, v) == BucketOf(min, width, v)
  {
    assert Wrap(v - min) == v - min;
  }

  /** As written, a value just below min, such as -1 with min 0 and width 2, is truncated
      into bucket 0 and estimated as if it were in the histogram's first bucket. */
  lemma TruncatedBelowMin()
    ensures BucketOf(0, 2, -1) == Ok(0)
    ensures FlooredBucketOf(0, 2, -1) == Ok(-1)
  {
  }
}
