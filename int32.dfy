/** Signed 32-bit integers as C++ sees them: the range of `int32_t` and the
    conversion of a wider integer value into it. */
module Int32 {

  const Modulus: int := 0x1_0000_0000
  const Min: int := -0x8000_0000
  const Max: int := 0x7fff_ffff

  /** True iff `x` is a value of `int32_t`. */
  predicate InRange(x: int) {
    Min <= x <= Max
  }

  /** The value `x` takes once converted to `int32_t`: the unique value of the
      signed 32-bit range that is congruent to `x` modulo 2^32 (two's-complement
      wrap-around, as C++20 prescribes and as the compilers for AArch64 do). */
  function ToInt32(x: int): (r: int)
    ensures InRange(r)
    ensures (x - r) % Modulus == 0
  {
    var m := x % Modulus;
    assert x == (x / Modulus) * Modulus + m;
    if m <= Max then m else m - Modulus
  }

  /** The conversion leaves every value already in range unchanged. */
  lemma ToInt32Identity(x: int)
    requires InRange(x)
    ensures ToInt32(x) == x
  {
  }

  /** The conversion is determined by its contract: any in-range value congruent
      to `x` modulo 2^32 is the converted value. */
  lemma ToInt32Unique(x: int, y: int)
    requires InRange(y)
    requires (x - y) % Modulus == 0
    ensures ToInt32(x) == y
  {
  }
}
