/** The parts of Java's semantics that the camera pipeline depends on:
    32-bit `int` arithmetic, integer division by two, bytes, and the
    runtime exceptions that abort a frame. */
module Java {

  type byte = bv8

  const INT_MIN: int := -0x8000_0000
  const INT_MAX: int := 0x7fff_ffff

  /** The values of Java's `int`. */
  type Int32 = x: int | INT_MIN <= x <= INT_MAX

  /** Two's-complement wrap-around of an exact result into an `int`, which is
      what Java's `+`, `-` and `*` on `int` produce. */
  function Wrap(x: int): (r: Int32)
    ensures INT_MIN <= x <= INT_MAX ==> r == x
    ensures INT_MAX < x <= 2 * INT_MAX + 1 ==> r == x - 0x1_0000_0000
    ensures (x - r) % 0x1_0000_0000 == 0
  {
    (x - INT_MIN) % 0x1_0000_0000 + INT_MIN
  }

  /** Java's `x / 2` on `int`: the quotient truncated toward zero (Dafny's own
      `/` rounds toward negative infinity for negative operands). */
  function Half(x: int): (r: int)
    ensures 0 <= x ==> 0 <= x - 2 * r <= 1
    ensures x < 0 ==> -1 <= x - 2 * r <= 0
  {
    if 0 <= x then x / 2 else -((-x) / 2)
  }

  /** The exceptions the packing code can raise; each aborts the frame. */
  datatype Fault =
    | BufferUnderflow     // ByteBuffer.get() at the limit
    | IllegalPosition     // ByteBuffer.position(p) with p < 0 or p > limit
    | IndexOutOfBounds    // an array store or a plane lookup out of range
    | NegativeArraySize   // new byte[n] with n < 0 after wrap-around

  /** A computation that either yields a value or throws one of the faults. */
  datatype Result<+T> = Success(value: T) | Failure(error: Fault) {
    predicate IsFailure() { Failure? }

    function PropagateFailure<U>(): Result<U>
      requires Failure?
    {
      Failure(error)
    }

    function Extract(): T
      requires Success?
    {
      value
    }
  }
}
