/** The OHLC candle shared by the price generator and the live chart, and the bounded history window. */
module Candles {

  /** One candle: `time` in whole seconds since the epoch, prices as reals. */
  datatype Candle = Candle(time: int, open: real, high: real, low: real, close: real)

  /** The number of candles either history keeps. */
  const Capacity: nat := 100

  function Min(a: real, b: real): (m: real)
    ensures m <= a && m <= b && (m == a || m == b)
  {
    if a <= b then a else b
  }

  function Max(a: real, b: real): (m: real)
    ensures a <= m && b <= m && (m == a || m == b)
  {
    if a >= b then a else b
  }

  /** The OHLC ordering: `low <= min(open, close) <= max(open, close) <= high`. */
  predicate WellFormed(c: Candle) {
    c.low <= Min(c.open, c.close) && Max(c.open, c.close) <= c.high
  }

  /** The most recent `n` elements, oldest dropped first (`slice(-n)` when too long). */
  function KeepLast<T>(s: seq<T>, n: nat): (r: seq<T>)
    ensures |r| <= n
    ensures |s| <= n ==> r == s
    ensures |s| > n ==> |r| == n
    ensures r == s[|s| - |r|..]
  {
    if |s| > n then s[|s| - n..] else s
  }

  /** Appending then keeping the last `n > 0` always keeps the new element, last. */
  lemma KeepLastAppend<T>(s: seq<T>, x: T, n: nat)
    requires 0 < n
    ensures var r := KeepLast(s + [x], n);
      |r| > 0 && r[|r| - 1] == x && r[..|r| - 1] == s[|s| - (|r| - 1)..]
  {
    var r := KeepLast(s + [x], n);
    assert r == (s + [x])[|s| + 1 - |r|..];
  }
}
