/**
 * The integer helpers of `Utility`: `clamp`, `splitQuantity` and the
 * millisecond/nanosecond conversions. The block-layer rules and the world
 * update loop, which need a `BlockGrid` and the protocol's limits, are in
 * `UtilityWorld`.
 */
module Utility {
  import opened Java

  /** `clamp(min, value, max)`: `Math.max(min, Math.min(value, max))`. */
  function Clamp(min: int32, value: int32, max: int32): (r: int32)
    ensures min <= max ==> min <= r <= max
    ensures min <= value <= max ==> r == value
    ensures min <= max && value < min ==> r == min
    ensures min <= max && max < value ==> r == max
    ensures max < min ==> r == min
  {
    var first := if value <= max then value else max;
    if min <= first then first else min
  }

  /**
   * `splitQuantity(bucketSize, itemCount)`: `itemCount / bucketSize +
   * itemCount % bucketSize` in int arithmetic. A zero bucket size divides
   * by zero.
   */
  function SplitQuantity(bucketSize: int32, itemCount: int32): (r: Result<int32>)
    ensures r.Err? <==> bucketSize == 0
    ensures r.Err? ==> r.error == Arithmetic
  {
    if bucketSize == 0 then Err(Arithmetic)
    else Ok(ToInt32(ToInt32(TruncDiv(itemCount, bucketSize)) + TruncMod(itemCount, bucketSize)))
  }

  /**
   * For a positive bucket size and a non-negative count, `splitQuantity` is the
   * number of full buckets plus the items left over: no more than the count,
   * the count itself when one bucket is not filled, and neither a quotient nor
   * a ceiling in general.
   */
  lemma SplitQuantityCounts(bucketSize: int32, itemCount: int32)
    requires bucketSize > 0 && itemCount >= 0
    ensures SplitQuantity(bucketSize, itemCount).Ok?
    ensures var r := SplitQuantity(bucketSize, itemCount).value;
      r == itemCount / bucketSize + itemCount % bucketSize
      && 0 <= r <= itemCount
      && (itemCount < bucketSize ==> r == itemCount)
      && (bucketSize == 1 ==> r == itemCount)
  {
    var q := itemCount / bucketSize;
    var m := itemCount % bucketSize;
    QuotientBounds(itemCount, bucketSize);
    assert TruncDiv(itemCount, bucketSize) == q;
    assert TruncMod(itemCount, bucketSize) == m;
    WrapId(q, 0x1_0000_0000);
    WrapId(q + m, 0x1_0000_0000);
  }

  /** Euclidean quotient and remainder of a count by a positive size. */
  lemma QuotientBounds(n: int, b: int)
    requires n >= 0 && b > 0
    ensures 0 <= n / b && n / b + n % b <= n
    ensures n < b ==> n / b == 0 && n % b == n
    ensures b == 1 ==> n / b == n && n % b == 0
  {
    var q, m := n / b, n % b;
    assert n == b * q + m;
    if q < 0 {
      MulAtLeast(b, -q);
      assert false;
    }
    if q > 0 {
      MulAtLeast(q, b);
    }
    if n < b {
      DivModUnique(n, b, 0, n);
    }
    if b == 1 {
      DivModUnique(n, b, n, 0);
    }
  }

  /** `millisToNanos`: a long multiplication by a million, which may overflow. */
  function MillisToNanos(milliseconds: long): long
  {
    ToLong(milliseconds * 1_000_000)
  }

  /** `nanosToMillis`: long division by a million, rounding toward zero. */
  function NanosToMillis(nanoseconds: long): (r: long)
    ensures Abs(r) * 1_000_000 <= Abs(nanoseconds) < (Abs(r) + 1) * 1_000_000
    ensures r == 0 || (r > 0) == (nanoseconds > 0)
  {
    TruncDiv(nanoseconds, 1_000_000)
  }

  /** Milliseconds whose nanosecond count fits in a long come back from the round trip. */
  lemma MillisNanosRoundTrip(milliseconds: long)
    requires -0x8000_0000_0000_0000 <= milliseconds * 1_000_000 < 0x8000_0000_0000_0000
    ensures NanosToMillis(MillisToNanos(milliseconds)) == milliseconds
  {
    WrapId(milliseconds * 1_000_000, 0x1_0000_0000_0000_0000);
    var n := milliseconds * 1_000_000;
    if n >= 0 {
      DivModUnique(n, 1_000_000, milliseconds, 0);
    } else {
      DivModUnique(-n, 1_000_000, -milliseconds, 0);
    }
  }

  /** Past the long range the conversion wraps: 2^54 ms does not survive it. */
  lemma MillisNanosOverflow()
    ensures NanosToMillis(MillisToNanos(0x40_0000_0000_0000)) != 0x40_0000_0000_0000
  {
  }
}
