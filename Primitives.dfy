/** Java value semantics that the rest of the model relies on: bytes, 32-bit
    ints with wrap-around, truncating division, and the exceptions the code
    throws or lets escape. */
module Primitives {

  /** An unsigned byte as stored in a file (Java reads them as 0..255). */
  newtype byte = x: int | 0 <= x < 256

  const INT32_MIN: int := -0x8000_0000
  const INT32_MAX: int := 0x7fff_ffff
  const TWO_POW_32: int := 0x1_0000_0000

  /** A value of Java's `int`. */
  type int32 = x: int | INT32_MIN <= x <= INT32_MAX

  datatype Option<T> = None | Some(value: T)

  /** What a Java call can throw: a checked IOException (which callers
      catch), the EOFException `readFully` throws on a short read (an
      IOException whose message is null), or an unchecked RuntimeException
      (which nobody in the core catches). */
  datatype Fault = IOException(msg: string) | EOFException | RuntimeException(msg: string)
  {
    /** Caught by a `catch (IOException ex)` block. */
    predicate Checked() { !RuntimeException? }
  }

  datatype Result<T> = Success(value: T) | Failure(fault: Fault)

  /** A `void` Java call that either returns or throws. */
  datatype Outcome = Done | Raised(fault: Fault)

  /** Java's 32-bit two's-complement truncation of an int result. */
  function Wrap32(x: int): (r: int32)
    ensures INT32_MIN <= x <= INT32_MAX ==> r == x
  {
    var m := x % TWO_POW_32;
    if m > INT32_MAX then m - TWO_POW_32 else m
  }

  /** Wrapping changes a value by a multiple of 2^32. */
  lemma Wrap32Congruent(x: int)
    ensures (x - Wrap32(x)) % TWO_POW_32 == 0
  {
  }

  /** Adding to a wrapped value wraps the exact sum: a Java loop that keeps an
      `int` accumulator ends with the wrapped mathematical total. */
  lemma {:induction false} Wrap32AddLeft(a: int, b: int)
    ensures Wrap32(Wrap32(a) + b) == Wrap32(a + b)
  {
    var w := Wrap32(a);
    Wrap32Congruent(a);
    var k := (a - w) / TWO_POW_32;
    assert a - w == k * TWO_POW_32;
    assert (w + b) % TWO_POW_32 == (a + b) % TWO_POW_32 by {
      assert a + b == (w + b) + k * TWO_POW_32;
      ModShift(w + b, k);
    }
  }

  lemma ModShift(x: int, k: int)
    ensures (x + k * TWO_POW_32) % TWO_POW_32 == x % TWO_POW_32
  {
  }

  /** Java's `/` on int and long: the quotient rounded toward zero. */
  function JavaDiv(a: int, b: int): (q: int)
    requires b != 0
    ensures a >= 0 && b > 0 ==> q == a / b
    ensures var r := a - q * b; (r == 0 || (r < 0 <==> a < 0)) && (if b > 0 then -b < r < b else b < r < -b)
  {
    if a >= 0 then (if b > 0 then a / b else -(a / -b))
    else (if b > 0 then -((-a) / b) else (-a) / (-b))
  }

  /** Java's `%` on int and long: the remainder takes the sign of the dividend. */
  function JavaRem(a: int, b: int): (r: int)
    requires b != 0
    ensures a >= 0 && b > 0 ==> r == a % b
    ensures a == JavaDiv(a, b) * b + r
    ensures r == 0 || (r < 0 <==> a < 0)
    ensures if b > 0 then -b < r < b else b < r < -b
  {
    a - JavaDiv(a, b) * b
  }
}
