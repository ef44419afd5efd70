/** Small shared vocabulary: optional values (Java references that may be null),
    results with an error case (Java exceptions), and the range of a Java `int`. */
module Basics {

  /** A Java reference that may be null: `None` is null. */
  datatype Option<T> = None | Some(value: T)

  /** The outcome of an operation that may throw. */
  datatype Result<T> = Ok(value: T) | Throws(error: JavaException)

  datatype JavaException = NullPointerException

  /** `Integer.MIN_VALUE` and `Integer.MAX_VALUE`. */
  const IntMin: int := -0x8000_0000
  const IntMax: int := 0x7fff_ffff

  predicate IsInt32(v: int) {
    IntMin <= v <= IntMax
  }

  /** Java's `int` addition: the exact sum reduced into [IntMin, IntMax] modulo 2^32. */
  function AddInt32(a: int, b: int): (r: int)
    requires IsInt32(a) && IsInt32(b)
    ensures IsInt32(r)
    ensures IsInt32(a + b) ==> r == a + b
    ensures !IsInt32(a + b) ==> r == a + b - 0x1_0000_0000 || r == a + b + 0x1_0000_0000
  {
    (a + b - IntMin) % 0x1_0000_0000 + IntMin
  }
}
