/**
 * Java `int` arithmetic: two's-complement 32-bit values whose `+` and `*`
 * wrap around modulo 2^32.
 */
module JavaInt {

  const TWO_32: int := 0x1_0000_0000
  const MIN_INT: int := -0x8000_0000
  const MAX_INT: int := 0x7fff_ffff

  /** The values of a Java `int`. */
  type Int32 = x: int | -0x8000_0000 <= x <= 0x7fff_ffff

  /**
   * The Java `int` that an unbounded integer result is truncated to: the
   * unique value in [MIN_INT, MAX_INT] congruent to `x` modulo 2^32.
   */
  function Wrap(x: int): (r: Int32)
    ensures (x - r) % TWO_32 == 0
    ensures MIN_INT <= x <= MAX_INT ==> r == x
  {
    var m := x % TWO_32;
    if m > MAX_INT then m - TWO_32 else m
  }

  /** The hash-combination step `prime * hash + field` with `prime == 31`, in `int` arithmetic. */
  function Combine31(hash: Int32, field: Int32): (r: Int32)
    ensures (31 * hash + field - r) % TWO_32 == 0
  {
    Wrap(31 * hash + field)
  }

  /** Congruent integers truncate to the same `int`. */
  lemma WrapOfCongruent(x: int, y: int, q: int)
    requires x == y + 0x1_0000_0000 * q
    ensures Wrap(x) == Wrap(y)
  {
    var d := y / 0x1_0000_0000;
    var m := y % 0x1_0000_0000;
    assert y == 0x1_0000_0000 * d + m;
    assert x == 0x1_0000_0000 * (d + q) + m;
    assert x % 0x1_0000_0000 == m;
  }

  /** A truncated value differs from the original by a multiple of 2^32. */
  lemma WrapDifference(x: int) returns (q: int)
    ensures x == Wrap(x) + 0x1_0000_0000 * q
  {
    q := x / 0x1_0000_0000;
    if x % 0x1_0000_0000 > MAX_INT {
      q := q + 1;
    }
  }

  /**
   * Truncating the running hash after every step gives what truncating
   * once at the end would: `31 * h + f` in `int` arithmetic only depends on
   * `h` modulo 2^32.
   */
  lemma Combine31OfTruncated(x: int, f: Int32)
    ensures Combine31(Wrap(x), f) == Wrap(31 * x + f)
  {
    var w := Wrap(x);
    var q := WrapDifference(x);
    assert 31 * x + f == (31 * w + f) + 0x1_0000_0000 * (31 * q);
    WrapOfCongruent(31 * x + f, 31 * w + f, 31 * q);
  }
}
