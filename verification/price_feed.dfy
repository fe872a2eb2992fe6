/**
 * The synthetic price generator behind the chart: a regime-switching random
 * walk that builds a 100-candle history aligned to the timeframe's interval
 * and then advances it one tick at a time.
 *
 * Every `Math.random()` draw is an explicit `Unit` argument and every
 * `Date.now()` reading an explicit millisecond argument, so each step is a
 * deterministic function of its inputs.
 */
module PriceFeed {
  import opened Candles

  /** A value `Math.random()` can return. */
  type Unit = r: real | 0.0 <= r < 1.0

  /** Number of candles in the initial history. */
  const HistorySize: nat := 100

  /** No price, initial or per tick, goes below this. */
  const PriceFloor: real := 0.01

  // ---------------------------------------------------------------- intervals

  /** Candle interval, in seconds, for a chart timeframe label; any other label is one hour. */
  function IntervalSeconds(timeframe: string): (secs: nat)
    ensures 30 <= secs <= 3600 && secs % 30 == 0
    ensures timeframe !in ["30s", "1m", "5m", "10m", "15m", "30m"] ==> secs == 3600
  {
    if timeframe == "30s" then 30
    else if timeframe == "1m" then 60
    else if timeframe == "5m" then 300
    else if timeframe == "10m" then 600
    else if timeframe == "15m" then 900
    else if timeframe == "30m" then 1800
    else 3600
  }

  /** The interval of every timeframe label the screen offers, `1h` included. */
  lemma IntervalOfTimeframes()
    ensures IntervalSeconds("30s") == 30 && IntervalSeconds("1m") == 60
    ensures IntervalSeconds("5m") == 300 && IntervalSeconds("10m") == 600
    ensures IntervalSeconds("15m") == 900 && IntervalSeconds("30m") == 1800
    ensures IntervalSeconds("1h") == 3600
  {
  }

  // --------------------------------------------------------------- base price

  /** The half-open range `[lo, hi)` the starting price of an asset is drawn from. */
  function BaseRange(asset: string): (r: (real, real))
    ensures 0.0 < r.0 < r.1
  {
    match asset
    case "bitcoin" => (30000.0, 40000.0)
    case "ethereum" => (2000.0, 3000.0)
    case "binancecoin" => (300.0, 400.0)
    case "ripple" => (0.5, 0.7)
    case "cardano" => (0.3, 0.5)
    case _ => (100.0, 1000.0)
  }

  /** Starting price of an asset, from one uniform draw. */
  function BasePrice(asset: string, u: Unit): (p: real)
    ensures BaseRange(asset).0 <= p < BaseRange(asset).1
    ensures p >= 0.3
  {
    match asset
    case "bitcoin" => 30000.0 + u * 10000.0
    case "ethereum" => 2000.0 + u * 1000.0
    case "binancecoin" => 300.0 + u * 100.0
    case "ripple" => 0.5 + u * 0.2
    case "cardano" => 0.3 + u * 0.2
    case _ => 100.0 + u * 900.0
  }

  // ------------------------------------------------------------------- regime

  /** The trend regime: direction, strength and the steps it has left. */
  datatype Trend = Trend(direction: int, strength: real, remaining: int)

  /** The three draws a regime change consumes, in the order they are drawn. */
  datatype RegimeDraws = RegimeDraws(direction: Unit, duration: Unit, strength: Unit)

  /** A freshly drawn regime: up or down, 5 to 14 steps, strength in `[0.3, 1.0)`. */
  function DrawTrend(d: RegimeDraws): (t: Trend)
    ensures t.direction == 1 <==> d.direction > 0.5
    ensures t.direction == -1 <==> d.direction <= 0.5
    ensures 5 <= t.remaining <= 14
    ensures 0.3 <= t.strength < 1.0
  {
    Trend(if d.direction > 0.5 then 1 else -1, 0.3 + d.strength * 0.7, 5 + (d.duration * 10.0).Floor)
  }

  /** A regime as the generator keeps it between steps. */
  predicate RegimeOk(t: Trend) {
    (t.direction == 1 || t.direction == -1) && 0.3 <= t.strength < 1.0 && 0 <= t.remaining <= 14
  }

  /** One step of the regime: redrawn when its counter has run out, then counted down once. */
  function AdvanceTrend(t: Trend, d: RegimeDraws): (t': Trend)
    ensures t.remaining > 0 ==> t'.direction == t.direction && t'.strength == t.strength
    ensures t.remaining > 0 ==> t'.remaining == t.remaining - 1
    ensures t.remaining <= 0 ==> t'.direction == DrawTrend(d).direction && t'.strength == DrawTrend(d).strength
    ensures t.remaining <= 0 ==> t'.remaining == DrawTrend(d).remaining - 1
    ensures t.remaining <= 0 ==> 4 <= t'.remaining <= 13
    ensures RegimeOk(t) || t.remaining <= 0 ==> RegimeOk(t')
  {
    var u := if t.remaining <= 0 then DrawTrend(d) else t;
    u.(remaining := u.remaining - 1)
  }

  // --------------------------------------------------------------- price step

  /** Relative move of one step: trend drift plus uniform noise in `[-0.0075, 0.0075)`. */
  function ChangePercent(t: Trend, noise: Unit): real {
    t.direction as real * t.strength * 0.005 + (noise - 0.5) * 0.015
  }

  /** The next price: the previous one moved by `ChangePercent`, floored at 0.01. */
  function NextPrice(price: real, t: Trend, noise: Unit): (p: real)
    ensures p >= PriceFloor
    ensures p > PriceFloor ==> p == price * (1.0 + ChangePercent(t, noise))
    ensures price * (1.0 + ChangePercent(t, noise)) <= PriceFloor ==> p == PriceFloor
  {
    Max(price * (1.0 + ChangePercent(t, noise)), PriceFloor)
  }

  /** Under a valid regime one step moves a positive price by less than 1.25% (before the floor). */
  lemma {:induction false} StepBounded(price: real, t: Trend, noise: Unit)
    requires RegimeOk(t) && price > 0.0
    ensures -0.0125 < ChangePercent(t, noise) < 0.0125
    ensures price * 0.9875 < NextPrice(price, t, noise)
    ensures NextPrice(price, t, noise) <= Max(price * 1.0125, PriceFloor)
  {
    var c := ChangePercent(t, noise);
    if t.direction == 1 {
      assert t.direction as real * t.strength * 0.005 == t.strength * 0.005;
    } else {
      assert t.direction as real * t.strength * 0.005 == -t.strength * 0.005;
    }
    var q := price * (1.0 + c);
    assert NextPrice(price, t, noise) == Max(q, PriceFloor);
    ScaleBetween(price, 0.9875, 1.0 + c, 1.0125);
  }

  lemma ScaleBetween(x: real, lo: real, m: real, hi: real)
    requires x > 0.0 && lo < m < hi
    ensures x * lo < x * m < x * hi
  {
    MulPos(x, m - lo);
    MulPos(x, hi - m);
  }

  lemma ScaleAtMost(x: real, lo: real, m: real)
    requires x > 0.0 && lo <= m
    ensures x * lo <= x * m
  {
    if lo < m {
      MulPos(x, m - lo);
    }
  }

  lemma MulPos(a: real, b: real)
    requires a > 0.0 && b > 0.0
    ensures a * b > 0.0
  {
  }

  // ------------------------------------------------------------ initial series

  /** The draws one historical candle consumes. */
  datatype CandleDraws = CandleDraws(regime: RegimeDraws, noise: Unit, volatility: Unit)

  /** Aligned time of candle `i` of the initial history ending at `now`. */
  function CandleTime(now: int, interval: nat, i: int): int
    requires interval > 0
  {
    ((now - (HistorySize - 1 - i) * interval) / interval) * interval
  }

  /** The aligned time is `i - 99` whole intervals after the boundary at or before `now`. */
  lemma CandleTimeAligned(now: int, interval: nat, i: int)
    requires interval > 0
    ensures CandleTime(now, interval, i) == (now / interval - (HistorySize - 1 - i)) * interval
    ensures CandleTime(now, interval, i) % interval == 0
  {
    var k := HistorySize - 1 - i;
    DivShift(now, interval, k);
    MultipleMod(now / interval - k, interval);
  }

  /** `x` raised by `factor`, for a factor in `[0.005, 0.015)`. */
  function WidenUp(x: real, factor: real): (y: real)
    requires 0.005 <= factor < 0.015
    ensures x > 0.0 ==> x * 1.005 <= y < x * 1.015
  {
    if x > 0.0 then ScaleAtMost(x, 1.005, 1.0 + factor); ScaleBetween(x, 1.0, 1.0 + factor, 1.015); x * (1.0 + factor)
    else x * (1.0 + factor)
  }

  /** `x` lowered by `factor`, for a factor in `[0.005, 0.015)`. */
  function WidenDown(x: real, factor: real): (y: real)
    requires 0.005 <= factor < 0.015
    ensures x > 0.0 ==> x * 0.985 < y <= x * 0.995 && 0.0 < y
  {
    if x > 0.0 then
      ScaleAtMost(x, 1.0 - factor, 0.995); ScaleBetween(x, 0.985, 1.0 - factor, 1.0); MulPos(x, 1.0 - factor);
      x * (1.0 - factor)
    else x * (1.0 - factor)
  }

  /** A historical candle: wicks widened by an independent factor in `[0.5%, 1.5%)`. */
  function HistoricalCandle(time: int, open: real, close: real, v: Unit): (c: Candle)
    ensures c.time == time && c.open == open && c.close == close
    ensures open > 0.0 && close > 0.0 ==> WellFormed(c) && c.low > 0.0
    ensures open > 0.0 && close > 0.0 ==> Max(open, close) * 1.005 <= c.high < Max(open, close) * 1.015
    ensures open > 0.0 && close > 0.0 ==> Min(open, close) * 0.985 < c.low <= Min(open, close) * 0.995
  {
    var factor := 0.005 + v * 0.01;
    Candle(time, open, WidenUp(Max(open, close), factor), WidenDown(Min(open, close), factor), close)
  }

  /** The history from candle `i` on, the price after it, and the regime after it. */
  datatype Series = Series(candles: seq<Candle>, price: real, trend: Trend)

  /**
   * Candles `i..99` of the initial history, starting at `price` under regime `t`:
   * each step advances the regime, moves the price, and emits a candle from the
   * old price to the new one.
   */
  function GenerateFrom(now: int, interval: nat, i: nat, price: real, t: Trend, draws: seq<CandleDraws>): (s: Series)
    requires interval > 0 && |draws| == HistorySize && i <= HistorySize
    requires price > 0.0 && RegimeOk(t)
    ensures |s.candles| == HistorySize - i
    ensures forall k :: 0 <= k < |s.candles| ==> s.candles[k].time == CandleTime(now, interval, i + k)
    ensures AllWellFormed(s.candles) && Continuous(s.candles)
    ensures forall k :: 0 <= k < |s.candles| ==> s.candles[k].close >= PriceFloor
    ensures |s.candles| > 0 ==> s.candles[0].open == price && s.price == s.candles[|s.candles| - 1].close
    ensures |s.candles| == 0 ==> s.price == price
    ensures s.price > 0.0 && RegimeOk(s.trend)
    decreases HistorySize - i
  {
    if i == HistorySize then Series([], price, t)
    else
      var d := draws[i];
      var t' := AdvanceTrend(t, d.regime);
      var close := NextPrice(price, t', d.noise);
      var c := HistoricalCandle(CandleTime(now, interval, i), price, close, d.volatility);
      var rest := GenerateFrom(now, interval, i + 1, close, t', draws);
      Series([c] + rest.candles, rest.price, rest.trend)
  }

  // -------------------------------------------------------------------- feed

  /** The hook's mutable record: whether history exists, the last price, the last update and the regime. */
  datatype Generator = Generator(generated: bool, lastPrice: real, lastUpdateTime: int, trend: Trend)

  /** The generator record together with the candle list it feeds. */
  datatype Feed = Feed(gen: Generator, candles: seq<Candle>)

  /** The state before any history has been generated. */
  const Unstarted: Feed := Feed(Generator(false, 0.0, 0, Trend(0, 0.0, 0)), [])

  /** The draws the initial history consumes: base price, first regime, one record per candle. */
  datatype InitDraws = InitDraws(base: Unit, regime: RegimeDraws, candles: seq<CandleDraws>)

  /** Every candle satisfies the OHLC ordering with a positive low. */
  predicate AllWellFormed(cs: seq<Candle>) {
    forall k :: 0 <= k < |cs| ==> WellFormed(cs[k]) && cs[k].low > 0.0
  }

  /** Every candle time is a multiple of the interval. */
  predicate Aligned(cs: seq<Candle>, interval: nat)
    requires interval > 0
  {
    forall k :: 0 <= k < |cs| ==> cs[k].time % interval == 0
  }

  /** Candle times strictly increase from each candle to the next. */
  predicate Increasing(cs: seq<Candle>) {
    forall k :: 0 < k < |cs| ==> cs[k - 1].time < cs[k].time
  }

  /** Each candle opens at the previous candle's close. */
  predicate Continuous(cs: seq<Candle>) {
    forall k :: 0 < k < |cs| ==> cs[k].open == cs[k - 1].close
  }

  /** Consecutive candle times are exactly one interval apart. */
  predicate Spaced(cs: seq<Candle>, interval: nat) {
    forall k :: 0 < k < |cs| ==> cs[k].time == cs[k - 1].time + interval
  }

  /**
   * The invariant of a running feed, whatever interval its candles were
   * built for: ordered, continuous, bounded candles and a floored price.
   */
  predicate RunningOk(f: Feed) {
    && f.gen.generated
    && 1 <= |f.candles| <= Capacity
    && AllWellFormed(f.candles)
    && Increasing(f.candles)
    && Continuous(f.candles)
    && f.gen.lastPrice == f.candles[|f.candles| - 1].close
    && f.gen.lastPrice >= PriceFloor
    && RegimeOk(f.gen.trend)
  }

  /** The invariant of a running feed for one interval: also aligned to it. */
  predicate FeedOk(f: Feed, interval: nat)
    requires interval > 0
  {
    RunningOk(f) && Aligned(f.candles, interval)
  }

  /**
   * A fresh feed for one interval: 100 candles ending at the interval boundary
   * at or before `now`, exactly one interval apart, starting from `base`.
   */
  function InitialFeed(now: int, interval: nat, base: real, regime: RegimeDraws, draws: seq<CandleDraws>): (f: Feed)
    requires interval > 0 && |draws| == HistorySize && base > 0.0
    ensures FeedOk(f, interval) && |f.candles| == HistorySize
    ensures f.candles[HistorySize - 1].time == (now / interval) * interval
    ensures Spaced(f.candles, interval)
    ensures f.candles[0].open == base
    ensures f.gen.lastUpdateTime == now
  {
    InitialSeriesOk(now, interval, base, regime, draws);
    var s := GenerateFrom(now, interval, 0, base, DrawTrend(regime), draws);
    Feed(Generator(true, s.price, now, s.trend), s.candles)
  }

  /**
   * Builds the initial history once. When history already exists this does
   * nothing, whatever asset or timeframe is now selected.
   */
  function GenerateInitialData(f: Feed, asset: string, timeframe: string, nowMs: int, d: InitDraws): (f': Feed)
    requires |d.candles| == HistorySize
    ensures f.gen.generated ==> f' == f
    ensures !f.gen.generated ==>
      var interval := IntervalSeconds(timeframe);
      && FeedOk(f', interval)
      && |f'.candles| == HistorySize
      && f'.candles[HistorySize - 1].time == (nowMs / 1000 / interval) * interval
      && Spaced(f'.candles, interval)
      && f'.candles[0].open == BasePrice(asset, d.base)
      && f'.gen.lastUpdateTime == nowMs / 1000
  {
    if f.gen.generated then f
    else InitialFeed(nowMs / 1000, IntervalSeconds(timeframe), BasePrice(asset, d.base), d.regime, d.candles)
  }

  lemma InitialSeriesOk(now: int, interval: nat, base: real, regime: RegimeDraws, draws: seq<CandleDraws>)
    requires interval > 0 && |draws| == HistorySize && base > 0.0
    ensures var s := GenerateFrom(now, interval, 0, base, DrawTrend(regime), draws);
      && FeedOk(Feed(Generator(true, s.price, now, s.trend), s.candles), interval)
      && |s.candles| == HistorySize
      && s.candles[HistorySize - 1].time == (now / interval) * interval
      && Spaced(s.candles, interval)
      && s.candles[0].open == base
  {
    var s := GenerateFrom(now, interval, 0, base, DrawTrend(regime), draws);
    assert forall k :: 0 <= k < |s.candles| ==> s.candles[k].time == CandleTime(now, interval, k);
    InitialTimes(now, interval, s.candles);
    HistoryFeedOk(s, now, interval);
  }

  lemma HistoryFeedOk(s: Series, now: int, interval: nat)
    requires interval > 0 && |s.candles| == HistorySize
    requires AllWellFormed(s.candles) && Aligned(s.candles, interval)
    requires Increasing(s.candles) && Continuous(s.candles)
    requires s.candles[|s.candles| - 1].close >= PriceFloor
    requires s.price == s.candles[|s.candles| - 1].close && RegimeOk(s.trend)
    ensures FeedOk(Feed(Generator(true, s.price, now, s.trend), s.candles), interval)
  {
  }

  lemma InitialTimes(now: int, interval: nat, cs: seq<Candle>)
    requires interval > 0 && |cs| == HistorySize
    requires forall k :: 0 <= k < |cs| ==> cs[k].time == CandleTime(now, interval, k)
    ensures Aligned(cs, interval) && Spaced(cs, interval) && Increasing(cs)
    ensures cs[HistorySize - 1].time == (now / interval) * interval
  {
    forall k | 0 <= k < |cs| ensures cs[k].time % interval == 0 {
      CandleTimeAligned(now, interval, k);
    }
    forall k | 0 < k < |cs| ensures cs[k].time == cs[k - 1].time + interval {
      CandleTimeAligned(now, interval, k);
      CandleTimeAligned(now, interval, k - 1);
    }
    CandleTimeAligned(now, interval, HistorySize - 1);
    assert Spaced(cs, interval);
  }

  // --------------------------------------------------------------------- tick

  /** The draws one tick consumes. */
  datatype TickDraws = TickDraws(regime: RegimeDraws, noise: Unit)

  /** The candle a tick opens when the clock has crossed into a new interval. */
  function OpenCandle(now: int, interval: nat, previousClose: real, price: real): (c: Candle)
    requires interval > 0
    ensures c.time % interval == 0 && now - interval < c.time <= now
    ensures c.open == previousClose && c.close == price
    ensures c.high == Max(previousClose, price) && c.low == Min(previousClose, price)
    ensures WellFormed(c)
  {
    MultipleMod(now / interval, interval);
    Candle((now / interval) * interval, previousClose, Max(previousClose, price), Min(previousClose, price), price)
  }

  /** The in-progress candle after a tick inside its interval: only high, low and close move. */
  function UpdateCandle(c: Candle, price: real): (c': Candle)
    ensures c'.time == c.time && c'.open == c.open && c'.close == price
    ensures c'.high == Max(c.high, price) && c'.low == Min(c.low, price)
    ensures WellFormed(c) ==> WellFormed(c')
  {
    c.(high := Max(c.high, price), low := Min(c.low, price), close := price)
  }

  /**
   * One tick once history exists: advance the regime and the price, then
   * open a new candle (keeping the last 100) when a whole interval has passed
   * since the last candle, or else update the last candle in place.
   */
  function Step(f: Feed, now: int, interval: nat, d: TickDraws): (f': Feed)
    requires interval > 0 && |f.candles| > 0
    ensures f'.gen.generated == f.gen.generated && f'.gen.lastUpdateTime == now
    ensures f'.gen.trend == AdvanceTrend(f.gen.trend, d.regime)
    ensures f'.gen.lastPrice >= PriceFloor
    ensures f.gen.lastPrice > 0.0 ==> f'.gen.lastPrice == NextPrice(f.gen.lastPrice, f'.gen.trend, d.noise)
    ensures f.gen.lastPrice <= 0.0 ==>
      f'.gen.lastPrice == NextPrice(f.candles[|f.candles| - 1].close, f'.gen.trend, d.noise)
    ensures |f'.candles| > 0 && f'.candles[|f'.candles| - 1].close == f'.gen.lastPrice
  {
    var last := f.candles[|f.candles| - 1];
    var t := AdvanceTrend(f.gen.trend, d.regime);
    var previous := if f.gen.lastPrice > 0.0 then f.gen.lastPrice else last.close;
    var price := NextPrice(previous, t, d.noise);
    var gen := Generator(f.gen.generated, price, now, t);
    if now - last.time >= interval then
      var c := OpenCandle(now, interval, last.close, price);
      KeepLastAppend(f.candles, c, Capacity);
      Feed(gen, KeepLast(f.candles + [c], Capacity))
    else
      Feed(gen, f.candles[..|f.candles| - 1] + [UpdateCandle(last, price)])
  }

  /**
   * One tick of the hook. Before history exists, or with an empty candle
   * list, it only tries to build the history (which does nothing once the
   * history flag is set); otherwise it is `Step` at the current second.
   */
  function UpdatePriceAndCandle(f: Feed, asset: string, timeframe: string, nowMs: int, init: InitDraws, d: TickDraws): (r: Feed)
    requires |init.candles| == HistorySize
    ensures r.gen.generated
    ensures f.gen.generated && f.candles == [] ==> r == f
    ensures f.gen.generated && f.candles != [] ==>
      && r.candles != [] && r.gen.lastUpdateTime == nowMs / 1000
      && r.gen.trend == AdvanceTrend(f.gen.trend, d.regime)
      && (f.gen.lastPrice > 0.0 ==> r.gen.lastPrice == NextPrice(f.gen.lastPrice, r.gen.trend, d.noise))
  {
    if !f.gen.generated || |f.candles| == 0 then
      GenerateInitialData(f, asset, timeframe, nowMs, init)
    else
      Step(f, nowMs / 1000, IntervalSeconds(timeframe), d)
  }

  /**
   * The tick as the hook's interval callback actually runs it. The callback
   * is created once, at the first render, and reads the candle list of that
   * render, which is empty; so every tick takes the build-history branch,
   * whatever the current candles are, and once history exists it does
   * nothing at all.
   */
  function StaleTick(f: Feed, asset: string, timeframe: string, nowMs: int, init: InitDraws): (r: Feed)
    requires |init.candles| == HistorySize
    ensures f.gen.generated ==> r == f
    ensures !f.gen.generated ==> FeedOk(r, IntervalSeconds(timeframe))
  {
    GenerateInitialData(f, asset, timeframe, nowMs, init)
  }

  /**
   * On a running feed in an upward regime with steps left and a neutral
   * noise draw, the tick that reads the current candles raises the price,
   * while the callback's tick leaves it where the history ended.
   */
  lemma StaleTickFreezesPrice(f: Feed, asset: string, timeframe: string, nowMs: int, init: InitDraws, d: TickDraws)
    requires |init.candles| == HistorySize
    requires FeedOk(f, IntervalSeconds(timeframe))
    requires f.gen.trend.direction == 1 && f.gen.trend.remaining > 0 && d.noise == 0.5
    ensures StaleTick(f, asset, timeframe, nowMs, init).gen.lastPrice == f.gen.lastPrice
    ensures UpdatePriceAndCandle(f, asset, timeframe, nowMs, init, d).gen.lastPrice > f.gen.lastPrice
  {
    var p := f.gen.lastPrice;
    var t := AdvanceTrend(f.gen.trend, d.regime);
    var c := ChangePercent(t, d.noise);
    assert c == t.strength * 0.005;
    assert p * (1.0 + c) == p + p * c;
    MulPos(p, c);
  }

  /** A tick whose clock is still inside the last candle's interval changes only that candle's high, low and close. */
  lemma StepInPlace(f: Feed, now: int, interval: nat, d: TickDraws)
    requires interval > 0 && |f.candles| > 0
    requires now - f.candles[|f.candles| - 1].time < interval
    ensures var f' := Step(f, now, interval, d);
      var n := |f.candles|;
      var p := f'.gen.lastPrice;
      && |f'.candles| == n
      && f'.candles[..n - 1] == f.candles[..n - 1]
      && f'.candles[n - 1].time == f.candles[n - 1].time
      && f'.candles[n - 1].open == f.candles[n - 1].open
      && f'.candles[n - 1].high == Max(f.candles[n - 1].high, p)
      && f'.candles[n - 1].low == Min(f.candles[n - 1].low, p)
      && f'.candles[n - 1].close == p
  {
    var f' := Step(f, now, interval, d);
    var n := |f.candles|;
    assert f'.candles == f.candles[..n - 1] + [UpdateCandle(f.candles[n - 1], f'.gen.lastPrice)];
  }

  /**
   * A tick a whole interval after the last candle appends one aligned candle,
   * later than the last, opening at the last close, and keeps only the newest
   * 100 candles in order.
   */
  lemma StepAppends(f: Feed, now: int, interval: nat, d: TickDraws)
    requires interval > 0 && |f.candles| > 0
    requires now - f.candles[|f.candles| - 1].time >= interval
    ensures var f' := Step(f, now, interval, d);
      var last := f.candles[|f.candles| - 1];
      var p := f'.gen.lastPrice;
      var m := |f'.candles|;
      && m == (if |f.candles| < Capacity then |f.candles| + 1 else Capacity)
      && f'.candles[..m - 1] == f.candles[|f.candles| - (m - 1)..]
      && f'.candles[m - 1] == Candle((now / interval) * interval, last.close, Max(last.close, p), Min(last.close, p), p)
      && f'.candles[m - 1].time > last.time
      && f'.candles[m - 1].time % interval == 0
  {
    var f' := Step(f, now, interval, d);
    var c := OpenCandle(now, interval, f.candles[|f.candles| - 1].close, f'.gen.lastPrice);
    assert f'.candles == KeepLast(f.candles + [c], Capacity);
    KeepLastAppend(f.candles, c, Capacity);
  }

  /** Every tick preserves the feed invariant: ordered, aligned, continuous, bounded candles and a floored price. */
  lemma {:induction false} StepPreservesFeed(f: Feed, now: int, interval: nat, d: TickDraws)
    requires interval > 0 && FeedOk(f, interval)
    ensures FeedOk(Step(f, now, interval, d), interval)
  {
    var f' := Step(f, now, interval, d);
    var n := |f.candles|;
    var last := f.candles[n - 1];
    var p := f'.gen.lastPrice;
    if now - last.time >= interval {
      var c := OpenCandle(now, interval, last.close, p);
      assert f'.candles == KeepLast(f.candles + [c], Capacity);
      AppendKeeps(f.candles, c, interval);
    } else {
      assert f'.candles == f.candles[..n - 1] + [UpdateCandle(last, p)];
      ReplaceLastKeeps(f.candles, UpdateCandle(last, p), interval);
    }
  }

  lemma AppendKeeps(cs: seq<Candle>, c: Candle, interval: nat)
    requires interval > 0 && |cs| > 0
    requires AllWellFormed(cs) && Increasing(cs) && Continuous(cs)
    requires WellFormed(c) && c.low > 0.0 && c.time % interval == 0
    requires cs[|cs| - 1].time < c.time && c.open == cs[|cs| - 1].close
    ensures var r := KeepLast(cs + [c], Capacity);
      && AllWellFormed(r) && Increasing(r) && Continuous(r)
      && (Aligned(cs, interval) ==> Aligned(r, interval))
  {
    var ext := cs + [c];
    assert AllWellFormed(ext) && Increasing(ext) && Continuous(ext);
    assert Aligned(cs, interval) ==> Aligned(ext, interval);
    SuffixKeeps(ext, |ext| - |KeepLast(ext, Capacity)|, interval);
  }

  lemma ReplaceLastKeeps(cs: seq<Candle>, c: Candle, interval: nat)
    requires interval > 0 && |cs| > 0
    requires AllWellFormed(cs) && Increasing(cs) && Continuous(cs)
    requires WellFormed(c) && c.low > 0.0 && c.time == cs[|cs| - 1].time && c.open == cs[|cs| - 1].open
    ensures var r := cs[..|cs| - 1] + [c];
      && AllWellFormed(r) && Increasing(r) && Continuous(r)
      && (Aligned(cs, interval) ==> Aligned(r, interval))
  {
  }

  /**
   * Without alignment: a tick at any interval keeps a running feed ordered,
   * continuous, bounded and floored. This covers the candles of an earlier
   * timeframe that stay in place after a switch.
   */
  lemma {:induction false} StepKeepsRunning(f: Feed, now: int, interval: nat, d: TickDraws)
    requires interval > 0 && RunningOk(f)
    ensures RunningOk(Step(f, now, interval, d))
  {
    var f' := Step(f, now, interval, d);
    var n := |f.candles|;
    var last := f.candles[n - 1];
    var p := f'.gen.lastPrice;
    if now - last.time >= interval {
      var c := OpenCandle(now, interval, last.close, p);
      assert f'.candles == KeepLast(f.candles + [c], Capacity);
      AppendKeeps(f.candles, c, interval);
    } else {
      assert f'.candles == f.candles[..n - 1] + [UpdateCandle(last, p)];
      ReplaceLastKeeps(f.candles, UpdateCandle(last, p), interval);
    }
  }

  /** After a timeframe switch the hook's tick still keeps the feed running, ordered and continuous. */
  lemma TickAfterSwitch(f: Feed, asset: string, timeframe: string, nowMs: int, init: InitDraws, d: TickDraws)
    requires |init.candles| == HistorySize
    requires RunningOk(f)
    ensures RunningOk(UpdatePriceAndCandle(f, asset, timeframe, nowMs, init, d))
  {
    StepKeepsRunning(f, nowMs / 1000, IntervalSeconds(timeframe), d);
  }

  /** The hook's tick keeps a running feed running and preserves its invariant. */
  lemma TickPreservesFeed(f: Feed, asset: string, timeframe: string, nowMs: int, init: InitDraws, d: TickDraws)
    requires |init.candles| == HistorySize
    requires FeedOk(f, IntervalSeconds(timeframe))
    ensures FeedOk(UpdatePriceAndCandle(f, asset, timeframe, nowMs, init, d), IntervalSeconds(timeframe))
  {
    StepPreservesFeed(f, nowMs / 1000, IntervalSeconds(timeframe), d);
  }

  /**
   * The first tick of an unstarted hook builds the history: 100 candles
   * satisfying the feed invariant, the last at the current interval boundary.
   */
  lemma FirstTick(asset: string, timeframe: string, nowMs: int, init: InitDraws, d: TickDraws)
    requires |init.candles| == HistorySize
    ensures var f := UpdatePriceAndCandle(Unstarted, asset, timeframe, nowMs, init, d);
      var interval := IntervalSeconds(timeframe);
      && FeedOk(f, interval)
      && |f.candles| == HistorySize
      && f.candles[HistorySize - 1].time == (nowMs / 1000 / interval) * interval
  {
  }

  lemma SuffixKeeps(s: seq<Candle>, j: nat, interval: nat)
    requires interval > 0 && j <= |s|
    requires AllWellFormed(s) && Increasing(s) && Continuous(s)
    ensures AllWellFormed(s[j..]) && Increasing(s[j..]) && Continuous(s[j..])
    ensures Aligned(s, interval) ==> Aligned(s[j..], interval)
  {
    var r := s[j..];
    assert forall k :: 0 <= k < |r| ==> r[k] == s[j + k];
  }

  /** Strictly increasing neighbours give strictly increasing times throughout. */
  lemma {:induction false} TimesIncreasing(f: Feed, interval: nat, i: nat, j: nat)
    requires interval > 0 && FeedOk(f, interval)
    requires i < j < |f.candles|
    ensures f.candles[i].time < f.candles[j].time
    decreases j - i
  {
    if i + 1 < j {
      TimesIncreasing(f, interval, i + 1, j);
    }
  }

  // --------------------------------------------------------------- arithmetic

  lemma DivUnique(x: int, d: int, q: int, r: int)
    requires d > 0 && x == q * d + r && 0 <= r < d
    ensures x / d == q && x % d == r
  {
    var q', r' := x / d, x % d;
    assert x == q' * d + r';
    if q' > q {
      assert (q' - q) * d == r - r' by { Distribute(q', q, d); }
      MulAtLeast(q' - q, d);
    } else if q' < q {
      assert (q - q') * d == r' - r by { Distribute(q, q', d); }
      MulAtLeast(q - q', d);
    }
  }

  lemma Distribute(a: int, b: int, d: int)
    ensures (a - b) * d == a * d - b * d
  {
  }

  lemma MulAtLeast(a: int, d: int)
    requires a >= 1 && d > 0
    ensures a * d >= d
  {
    assert a * d == (a - 1) * d + d by { Distribute(a, 1, d); }
    MulNonneg(a - 1, d);
  }

  lemma MulNonneg(a: int, b: int)
    requires a >= 0 && b >= 0
    ensures a * b >= 0
  {
  }

  lemma DivShift(x: int, d: int, k: int)
    requires d > 0
    ensures (x - k * d) / d == x / d - k
  {
    assert x - k * d == (x / d - k) * d + x % d;
    DivUnique(x - k * d, d, x / d - k, x % d);
  }

  lemma MultipleMod(q: int, d: int)
    requires d > 0
    ensures (q * d) % d == 0 && (q * d) / d == q
  {
    DivUnique(q * d, d, q, 0);
  }
}
