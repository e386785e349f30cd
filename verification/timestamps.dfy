/** `UnixTimestampDateAdapter`: ledger block times arrive as Unix seconds
    and are held as `java.util.Date` milliseconds. Both directions are Java
    `long` arithmetic: multiplication wraps around at 64 bits and division
    truncates toward zero. */
module Timestamps {

  const LONG_MODULUS: int := 0x1_0000_0000_0000_0000
  const LONG_MIN: int := -0x8000_0000_0000_0000
  const LONG_MAX: int := 0x7fff_ffff_ffff_ffff

  /** A Java `long`. */
  type Int64 = x: int | -0x8000_0000_0000_0000 <= x <= 0x7fff_ffff_ffff_ffff

  const MULTIPLIER := 1000

  /** The largest magnitude of seconds whose milliseconds fit in a `long`. */
  const MAX_SECONDS := 9_223_372_036_854_775

  /** Two's-complement wrap-around of a mathematical integer into a `long`. */
  function WrapLong(x: int): (r: Int64)
    ensures (r - x) % LONG_MODULUS == 0
    ensures LONG_MIN <= x <= LONG_MAX ==> r == x
  {
    var m := x % LONG_MODULUS;
    if m > LONG_MAX then m - LONG_MODULUS else m
  }

  /** Java's `/` on integers: the quotient truncated toward zero. */
  function TruncatedDiv(a: int, d: int): (q: int)
    requires d > 0
    ensures a >= 0 ==> q * d <= a < q * d + d
    ensures a < 0 ==> q * d - d < a <= q * d
  {
    if a >= 0 then a / d else -((-a) / d)
  }

  /** Java's `%` on integers: the remainder takes the sign of the dividend. */
  function TruncatedRem(a: int, d: int): (r: int)
    requires d > 0
    ensures a == TruncatedDiv(a, d) * d + r
    ensures -d < r < d
    ensures a >= 0 ==> r == a % d
  {
    a - TruncatedDiv(a, d) * d
  }

  /** `read`: `new Date(seconds * 1000)`, the product computed in `long`.
      It is exact whenever the milliseconds fit. */
  function Read(seconds: Int64): (millis: Int64)
    ensures -MAX_SECONDS <= seconds <= MAX_SECONDS ==> millis == seconds * MULTIPLIER
  {
    WrapLong(seconds * MULTIPLIER)
  }

  /** `write`: `date.getTime() / 1000`, truncating toward zero, so the
      written seconds are never further from zero than the milliseconds. */
  function Write(millis: Int64): (seconds: Int64)
    ensures millis >= 0 ==> seconds * MULTIPLIER <= millis < seconds * MULTIPLIER + MULTIPLIER
    ensures millis < 0 ==> seconds * MULTIPLIER - MULTIPLIER < millis <= seconds * MULTIPLIER
  {
    TruncatedDiv(millis, MULTIPLIER)
  }

  /** Seconds survive a read followed by a write. */
  lemma WriteAfterRead(seconds: Int64)
    requires -MAX_SECONDS <= seconds <= MAX_SECONDS
    ensures Write(Read(seconds)) == seconds
  {}

  /** Milliseconds survive a write followed by a read only up to the whole
      second: the sub-second part, signed like the input, is dropped. */
  lemma ReadAfterWrite(millis: Int64)
    ensures Read(Write(millis)) == millis - TruncatedRem(millis, MULTIPLIER)
    ensures millis >= 0 ==> Read(Write(millis)) == millis - millis % MULTIPLIER
  {
    var s := Write(millis);
    assert -MAX_SECONDS <= s <= MAX_SECONDS;
  }

  /** Negative milliseconds round toward zero, not down. */
  lemma NegativeMillisTruncate()
    ensures Write(-1500) == -1
    ensures Read(Write(-1500)) == -1000
  {}

  /** A block time of 1700000000 is 2023-11-14T22:13:20Z in milliseconds,
      and writing it back gives the same seconds. */
  lemma BlockTimeExample()
    ensures Read(1_700_000_000) == 1_700_000_000_000
    ensures Write(Read(1_700_000_000)) == 1_700_000_000
  {}

  /** One second past the safe range the product wraps to a negative date. */
  lemma ReadWrapsBeyondRange()
    ensures Read(MAX_SECONDS + 1) < 0
  {}
}
