/** The pieces of Java semantics the engine's code relies on: nullable values,
    exceptions as results, 32-bit int arithmetic and truncating division. */
module JavaLang {

  /** A Java reference that may be null. */
  datatype Option<+T> = None | Some(value: T)

  /** The exceptions (and the System.exit paths) the modelled code can end in. */
  datatype Thrown =
    | NoSuchElement        // java.util.NoSuchElementException
    | IndexOutOfBounds     // ArrayIndexOutOfBoundsException / StringIndexOutOfBoundsException
    | NullPointer          // NullPointerException
    | ClassCast            // ClassCastException from a downcast
    | Arithmetic           // ArithmeticException from an int division by zero
    | NumberFormat         // NumberFormatException from Integer.parseInt
    | DbError              // simpledb.DbException
    | TransactionAborted   // simpledb.TransactionAbortedException
    | ProcessExit          // printStackTrace(); System.exit(1)
    | LockWait             // a lock request refused: getPage asks again, and waits for as long as the refusal lasts

  /** Either the value a Java call returns, or the exception it throws. */
  datatype Result<+T> = Ok(value: T) | Err(error: Thrown)

  /** A Java byte as it is written to a stream or file (its unsigned value). */
  newtype byte = x: int | 0 <= x < 0x100

  const INT_MIN: int := -0x8000_0000
  const INT_MAX: int := 0x7fff_ffff
  const TWO_32: int := 0x1_0000_0000

  predicate IsInt(x: int) {
    INT_MIN <= x <= INT_MAX
  }

  /** The value a Java int holds after an int computation whose exact result is x
      (two's complement wrap-around). */
  function Wrap(x: int): (r: int)
    ensures IsInt(r)
    ensures (r - x) % TWO_32 == 0
    ensures IsInt(x) ==> r == x
  {
    (x - INT_MIN) % TWO_32 + INT_MIN
  }

  /** Euclidean division of a non-negative number, with its bounds spelled out. */
  lemma NatDivBounds(n: int, b: int)
    requires n >= 0 && b > 0
    ensures 0 <= n / b && (n / b) * b <= n < (n / b) * b + b
  {
    assert n == b * (n / b) + n % b;
    assert (n / b) * b == b * (n / b);
  }

  /** Java's int division by a positive divisor: the quotient is truncated toward zero
      (Dafny's own `/` rounds toward negative infinity for a negative dividend). */
  function Div(a: int, b: int): (q: int)
    requires b > 0
    ensures a >= 0 ==> 0 <= q && q * b <= a < q * b + b
    ensures a < 0 ==> q <= 0 && q * b - b < a <= q * b
  {
    if a >= 0 then
      NatDivBounds(a, b);
      a / b
    else
      NatDivBounds(-a, b);
      assert (-((-a) / b)) * b == -(((-a) / b) * b);
      -((-a) / b)
  }

  /** Java's `a / b` on ints for any non-zero divisor: truncated toward zero, and
      INT_MIN / -1 wraps back to INT_MIN. */
  function Quot(a: int, b: int): (q: int)
    requires b != 0
    ensures b > 0 ==> q == Div(a, b)
    ensures b < 0 ==> q == Wrap(-Div(a, -b))
  {
    if b > 0 then Div(a, b) else Wrap(-Div(a, -b))
  }

  /** Two exact results that differ by a multiple of 2^32 leave the same int behind. */
  lemma WrapCongruent(x: int, y: int)
    requires (x - y) % TWO_32 == 0
    ensures Wrap(x) == Wrap(y)
  {
    var a, b := (x - INT_MIN) % TWO_32, (y - INT_MIN) % TWO_32;
    var qx, qy := (x - INT_MIN) / TWO_32, (y - INT_MIN) / TWO_32;
    var k := (x - y) / TWO_32;
    assert x - INT_MIN == TWO_32 * qx + a;
    assert y - INT_MIN == TWO_32 * qy + b;
    assert x - y == TWO_32 * k;
    assert a - b == TWO_32 * (k - qx + qy);
  }

  /** Adding to a wrapped int wraps like adding to the exact value: int arithmetic may
      wrap at every step or only at the end. */
  lemma WrapAdd(x: int, d: int)
    ensures Wrap(Wrap(x) + d) == Wrap(x + d)
  {
    var w := Wrap(x);
    assert (w + d) - (x + d) == w - x;
    WrapCongruent(w + d, x + d);
  }

  /** Ceiling division of a non-negative int by a positive divisor, exact. */
  function CeilDiv(a: int, b: int): (q: int)
    requires a >= 0 && b > 0
    ensures q * b - b < a <= q * b
  {
    NatDivBounds(a + b - 1, b);
    (a + b - 1) / b
  }
}
