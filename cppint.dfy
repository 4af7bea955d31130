/**
 * The C++ integer arithmetic the timer relies on, written out over unbounded
 * integers: `int` is 32 bits wide, `std::size_t` 64 bits wide.
 */
module CppInt {

  /** `std::size_t` is 64 bits wide; `int` is 32 bits wide. */
  const SizeModulus: int := 0x1_0000_0000_0000_0000
  const IntModulus: int := 0x1_0000_0000
  const IntLimit: int := 0x8000_0000

  /** C++ `/` on `int`: the quotient is truncated toward zero. */
  function TruncDiv(a: int, b: int): int
    requires b > 0
  {
    if a >= 0 then a / b else -((-a) / b)
  }

  /**
   * A value stored in an `int`: its low 32 bits, read as two's complement.
   * This is what the narrowing of an unsigned value gives. Signed overflow
   * is undefined in C++; it is assumed here to wrap the same way, as common
   * compilers do.
   */
  function ToInt32(x: int): (r: int)
    ensures -IntLimit <= r < IntLimit
    ensures -IntLimit <= x < IntLimit ==> r == x
  {
    var low := x % IntModulus;
    if low < IntLimit then low else low - IntModulus
  }

  /** The stored value differs from the true one by a whole number of 2^32. */
  lemma ToInt32Wraps(x: int)
    ensures (x - ToInt32(x)) % IntModulus == 0
  {
    var low := x % IntModulus;
    assert x == (x / IntModulus) * IntModulus + low;
    if low < IntLimit {
      assert x - ToInt32(x) == (x / IntModulus) * IntModulus;
    } else {
      assert x - ToInt32(x) == (x / IntModulus + 1) * IntModulus;
    }
  }
}
