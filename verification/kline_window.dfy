/**
 * The live chart's candle window: each kline message from the exchange
 * stream becomes a candle that either replaces the candle with the same
 * start time or is appended, and the window keeps its last 100 candles.
 */
module KlineWindow {
  import opened Options
  import opened Candles

  /** The fields of one kline message: start time in milliseconds and the parsed prices. */
  datatype Kline = Kline(startMs: int, open: real, high: real, low: real, close: real)

  /** The candle for a kline: its start time in seconds, its prices unchanged. */
  function FromKline(k: Kline): (c: Candle)
    ensures c.time * 1000 <= k.startMs < c.time * 1000 + 1000
    ensures k.startMs % 1000 == 0 ==> c.time * 1000 == k.startMs
    ensures c.open == k.open && c.high == k.high && c.low == k.low && c.close == k.close
  {
    Candle(k.startMs / 1000, k.open, k.high, k.low, k.close)
  }

  /** `findIndex` on the candle time: the first position holding `time`, if any. */
  function FindTime(data: seq<Candle>, time: int): (r: Option<nat>)
    ensures r.Some? ==> r.value < |data| && data[r.value].time == time
    ensures r.Some? ==> forall j :: 0 <= j < r.value ==> data[j].time != time
    ensures r.None? <==> forall j :: 0 <= j < |data| ==> data[j].time != time
  {
    if data == [] then None
    else if data[0].time == time then Some(0)
    else match FindTime(data[1..], time)
      case None => None
      case Some(i) => Some(i + 1)
  }

  /**
   * Replace the candle with the same time, or append; then keep the last 100.
   * The window never holds more than 100 candles, and a full window stays full.
   */
  function Upsert(data: seq<Candle>, c: Candle): (r: seq<Candle>)
    ensures |r| <= Capacity
    ensures |data| >= Capacity ==> |r| == Capacity
  {
    match FindTime(data, c.time)
    case Some(i) => KeepLast(data[i := c], Capacity)
    case None => KeepLast(data + [c], Capacity)
  }

  /** No two candles of the window share a start time. */
  predicate DistinctTimes(data: seq<Candle>) {
    forall i, j :: 0 <= i < j < |data| ==> data[i].time != data[j].time
  }

  /**
   * A candle whose time is already present replaces the first candle with
   * that time, in place; in a window of at most 100 nothing else changes.
   */
  lemma UpsertReplaces(data: seq<Candle>, c: Candle, i: nat)
    requires i < |data| && data[i].time == c.time
    requires forall j :: 0 <= j < i ==> data[j].time != c.time
    requires |data| <= Capacity
    ensures Upsert(data, c) == data[i := c]
    ensures |Upsert(data, c)| == |data|
  {
    FoundAt(data, c.time, i);
  }

  /**
   * A candle with a new time is appended last; what precedes it is the
   * most recent part of the old window.
   */
  lemma UpsertAppends(data: seq<Candle>, c: Candle)
    requires forall j :: 0 <= j < |data| ==> data[j].time != c.time
    ensures var r := Upsert(data, c);
      && |r| > 0 && r[|r| - 1] == c
      && r[..|r| - 1] == data[|data| - (|r| - 1)..]
      && (|data| < Capacity ==> r == data + [c])
  {
    KeepLastAppend(data, c, Capacity);
  }

  /** Afterwards the candle for `c.time` is `c` itself, whenever the window held at most 100. */
  lemma UpsertFinds(data: seq<Candle>, c: Candle)
    requires |data| <= Capacity
    ensures var r := Upsert(data, c);
      && FindTime(r, c.time).Some? && r[FindTime(r, c.time).value] == c
  {
    match FindTime(data, c.time)
    case Some(i) =>
      UpsertReplaces(data, c, i);
      var r := data[i := c];
      assert forall j :: 0 <= j < i ==> r[j] == data[j];
      FoundAt(r, c.time, i);
    case None =>
      UpsertAppends(data, c);
      var r := Upsert(data, c);
      assert forall j :: 0 <= j < |r| - 1 ==> r[j] == data[|data| - (|r| - 1) + j];
      FoundAt(r, c.time, |r| - 1);
  }

  /** The lookup answers the first position holding the time, whichever that is. */
  lemma FoundAt(data: seq<Candle>, time: int, i: nat)
    requires i < |data| && data[i].time == time
    requires forall j :: 0 <= j < i ==> data[j].time != time
    ensures FindTime(data, time) == Some(i)
  {
  }

  /** Delivering the same kline twice leaves the window as one delivery did. */
  lemma UpsertIdempotent(data: seq<Candle>, c: Candle)
    requires |data| <= Capacity
    ensures Upsert(Upsert(data, c), c) == Upsert(data, c)
  {
    var r := Upsert(data, c);
    match FindTime(data, c.time)
    case Some(i) =>
      UpsertReplaces(data, c, i);
      assert forall j :: 0 <= j < i ==> r[j] == data[j];
      UpsertReplaces(r, c, i);
      assert r[i := c] == r;
    case None =>
      UpsertAppends(data, c);
      var k := |r| - 1;
      assert forall j :: 0 <= j < k ==> r[j] == data[|data| - k + j];
      UpsertReplaces(r, c, k);
      assert r[k := c] == r;
  }

  /** An upsert keeps the start times of the window distinct. */
  lemma UpsertKeepsDistinct(data: seq<Candle>, c: Candle)
    requires DistinctTimes(data)
    ensures DistinctTimes(Upsert(data, c))
  {
    match FindTime(data, c.time)
    case Some(i) =>
      var s := data[i := c];
      assert DistinctTimes(s) by {
        assert forall j :: 0 <= j < |s| ==> s[j].time == data[j].time;
      }
      SuffixDistinct(s, |s| - |KeepLast(s, Capacity)|);
    case None =>
      var s := data + [c];
      assert DistinctTimes(s) by {
        assert forall j :: 0 <= j < |data| ==> s[j] == data[j];
      }
      SuffixDistinct(s, |s| - |KeepLast(s, Capacity)|);
  }

  lemma SuffixDistinct(s: seq<Candle>, k: nat)
    requires k <= |s| && DistinctTimes(s)
    ensures DistinctTimes(s[k..])
  {
    var t := s[k..];
    forall i, j | 0 <= i < j < |t| ensures t[i].time != t[j].time {
      assert t[i] == s[k + i] && t[j] == s[k + j];
    }
  }
}
