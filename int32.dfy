/** Java's 32-bit two's-complement `int`, as far as the elimination code relies on it:
    `+` and `-` on `int` operands wrap around modulo 2^32. */
module Int32 {

  const Modulus: int := 0x1_0000_0000
  const Min: int := -0x8000_0000
  /** `Integer.MAX_VALUE`. */
  const Max: int := 0x7FFF_FFFF

  predicate InRange(x: int) {
    Min <= x <= Max
  }

  /** The `int` that differs from the exact value `x` by a multiple of 2^32. */
  function Wrap(x: int): (r: int)
    ensures InRange(r)
    ensures (x - r) % Modulus == 0
    ensures InRange(x) ==> r == x
  {
    (x - Min) % Modulus + Min
  }

  /** The exact sum or difference `x` of two `int`s, stored as an `int`: it lies within
      one multiple of 2^32 of the range, so one correction suffices. */
  function Store(x: int): int {
    if x > Max then x - Modulus else if x < Min then x + Modulus else x
  }

  /** Java `a + b` on two `int`s. */
  function Add(a: int, b: int): (r: int)
    ensures InRange(a) && InRange(b) ==> InRange(r)
  {
    Store(a + b)
  }

  /** Java `a - b` on two `int`s. */
  function Sub(a: int, b: int): (r: int)
    ensures InRange(a) && InRange(b) ==> InRange(r)
  {
    Store(a - b)
  }

  /** Java `a + b` is the exact sum reduced modulo 2^32 into the range. */
  lemma AddWraps(a: int, b: int)
    requires InRange(a) && InRange(b)
    ensures Add(a, b) == Wrap(a + b)
  {
    WrapCongruent(Add(a, b), a + b);
  }

  /** Java `a - b` is the exact difference reduced modulo 2^32 into the range. */
  lemma SubWraps(a: int, b: int)
    requires InRange(a) && InRange(b)
    ensures Sub(a, b) == Wrap(a - b)
  {
    WrapCongruent(Sub(a, b), a - b);
  }

  /** Two exact values that differ by a multiple of 2^32 are stored as the same `int`. */
  lemma WrapCongruent(x: int, y: int)
    requires (x - y) % Modulus == 0
    ensures Wrap(x) == Wrap(y)
  {
    var k := (x - y) / Modulus;
    assert x - y == k * Modulus;
    var qx := (x - Min) / Modulus;
    var qy := (y - Min) / Modulus;
    assert x - Min == qx * Modulus + Wrap(x) - Min;
    assert y - Min == qy * Modulus + Wrap(y) - Min;
    var d := Wrap(x) - Wrap(y);
    assert d == (k - qx + qy) * Modulus;
    assert -Modulus < d < Modulus;
  }

  /** Accumulating in an `int` one step at a time stores the wrapped exact total. */
  lemma WrapOfSum(a: int, b: int)
    ensures Wrap(Wrap(a) + b) == Wrap(a + b)
  {
    assert (Wrap(a) + b - (a + b)) % Modulus == 0 by {
      assert Wrap(a) + b - (a + b) == -(a - Wrap(a));
    }
    WrapCongruent(Wrap(a) + b, a + b);
  }

  /** Java `a + b - c` on `int`s is the wrapped exact value of `a + b - c`. */
  lemma AddSub(a: int, b: int, c: int)
    requires InRange(a) && InRange(b) && InRange(c)
    ensures Sub(Add(a, b), c) == Wrap(a + b - c)
  {
    AddWraps(a, b);
    SubWraps(Add(a, b), c);
    WrapOfSum(a + b, -c);
  }
}
