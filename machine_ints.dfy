/** Fixed-width integers of the kernel's C++ signature, and the facts about
    multiplication and division its index arithmetic relies on. */
module MachineInts {

  /** `int8_t`: the quantized inputs and weights. */
  newtype Int8 = x: int | -0x80 <= x < 0x80

  /** `int32_t`: the per-group accumulator `ival`. */
  newtype Int32 = x: int | -0x8000_0000 <= x < 0x8000_0000

  const INT32_MAX: int := 0x7FFF_FFFF

  const U64_MODULUS: int := 0x1_0000_0000_0000_0000

  /** `uint64_t`: dimensions, loop counters and offsets. Arithmetic on this
      type is checked never to leave the range, so every `+` and `*` the
      kernel performs on it is proved not to wrap. */
  newtype U64 = x: int | 0 <= x < 0x1_0000_0000_0000_0000

  /** `a - b` on `uint64_t`, which wraps modulo 2^64 when `b > a`. */
  function SubU64(a: U64, b: U64): (r: U64)
    ensures b <= a ==> r as int == a as int - b as int
    ensures a < b ==> r as int == a as int - b as int + U64_MODULUS
  {
    ((a as int - b as int) % U64_MODULUS) as U64
  }

  lemma MulMonotone(a: int, b: int, c: nat)
    requires a <= b
    ensures a * c <= b * c
  {
    assert b * c - a * c == (b - a) * c;
  }

  /** A positive multiple of `g` is at least `g`. */
  lemma MulAtLeastOne(t: int, g: nat)
    ensures t >= 1 ==> t * g >= g
  {
    if t >= 1 {
      MulMonotone(1, t, g);
    }
  }

  /** Quotient and remainder are determined by the division equation. */
  lemma DivUnique(x: int, g: int, q: int, r: int)
    requires 0 < g && 0 <= r < g && x == q * g + r
    ensures x / g == q && x % g == r
  {
    var q', r' := x / g, x % g;
    assert (q - q') * g == r' - r;
    assert (q' - q) * g == r - r';
    MulAtLeastOne(q - q', g);
    MulAtLeastOne(q' - q, g);
  }

  lemma DivMonotone(a: int, b: int, g: int)
    requires 0 <= a <= b && 0 < g
    ensures a / g <= b / g
  {
    var qa, qb := a / g, b / g;
    assert (qa - qb) * g == (a - a % g) - (b - b % g);
    MulAtLeastOne(qa - qb, g);
  }

  lemma DivAtMost(x: int, g: int)
    requires 0 <= x && 1 <= g
    ensures 0 <= x / g <= x
  {
    MulMonotone(1, g, x / g);
  }

  lemma DivOfMultiple(q: int, g: int, r: int)
    requires 0 < g && 0 <= r < g
    ensures (q * g + r) / g == q
  {
    DivUnique(q * g + r, g, q, r);
  }
}
