/** Java's fixed-width two's-complement integers: `int` (32 bits) and `long`
    (64 bits), whose arithmetic wraps around silently on overflow. */
module FixedWidth {

  const TWO_32: int := 0x1_0000_0000
  const TWO_64: int := 0x1_0000_0000_0000_0000

  const MIN32: int := -0x8000_0000
  const MAX32: int := 0x7fff_ffff
  const MIN64: int := -0x8000_0000_0000_0000
  const MAX64: int := 0x7fff_ffff_ffff_ffff

  /** The values of a Java `int`. */
  type int32 = x: int | -0x8000_0000 <= x < 0x8000_0000

  /** The values of a Java `long`. */
  type int64 = x: int | -0x8000_0000_0000_0000 <= x < 0x8000_0000_0000_0000

  /** Truncation of an exact result to 32 bits: the int32 congruent to x
      modulo 2^32, which is x itself when x is in range. */
  function Wrap32(x: int): (r: int32)
    ensures (r - x) % TWO_32 == 0
    ensures MIN32 <= x <= MAX32 ==> r == x
  {
    var m := x % TWO_32;
    if m <= MAX32 then m else m - TWO_32
  }

  /** Truncation of an exact result to 64 bits: the int64 congruent to x
      modulo 2^64, which is x itself when x is in range. */
  function Wrap64(x: int): (r: int64)
    ensures (r - x) % TWO_64 == 0
    ensures MIN64 <= x <= MAX64 ==> r == x
  {
    var m := x % TWO_64;
    if m <= MAX64 then m else m - TWO_64
  }

  /** Only one int64 is congruent to x modulo 2^64, so Wrap64 is determined
      by its congruence alone. */
  lemma Wrap64Unique(x: int, y: int64)
    requires (y - x) % TWO_64 == 0
    ensures y == Wrap64(x)
  {
    var r := Wrap64(x);
    var p := (y - x) / TWO_64;
    var q := (r - x) / TWO_64;
    assert y - x == TWO_64 * p;
    assert r - x == TWO_64 * q;
    assert y - r == TWO_64 * (p - q);
  }

  /** A multiple of 2^64 stays a multiple of 2^64 when scaled by any integer. */
  lemma MultipleScaled(a: int, d: int)
    requires d % TWO_64 == 0
    ensures (a * d) % TWO_64 == 0
  {
    var k := d / TWO_64;
    assert d == TWO_64 * k;
    var ak := a * k;
    assert a * d == TWO_64 * ak;
  }

  /** The sum of two multiples of 2^64 is a multiple of 2^64. */
  lemma MultipleSum(x: int, y: int)
    requires x % TWO_64 == 0 && y % TWO_64 == 0
    ensures (x + y) % TWO_64 == 0
  {
    var p, q := x / TWO_64, y / TWO_64;
    assert x + y == TWO_64 * (p + q);
  }

  /** Truncating an intermediate factor first does not change the truncated
      product: this is why a chain of wrapped multiplications equals the
      wrapped exact product. */
  lemma Wrap64OfProduct(a: int, b: int)
    ensures Wrap64(a * Wrap64(b)) == Wrap64(a * b)
  {
    var w := Wrap64(b);
    var aw, ab := a * w, a * b;
    MultipleScaled(a, w - b);
    assert a * (w - b) == aw - ab;
    var v := Wrap64(aw);
    MultipleSum(v - aw, aw - ab);
    Wrap64Unique(ab, v);
  }
}
