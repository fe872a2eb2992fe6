# Trading screen core, modelled in Dafny

This project models the logic of a binary-options trading screen. The model
has three parts.

1. **The synthetic price feed** from `useChartData`.
   - It is a regime-switching random walk. It builds a 100-candle OHLC history
     aligned to the timeframe's interval.
   - It then ticks: it advances the trend regime and the price, and either
     opens a new aligned candle or updates the last one in place. The window
     keeps at most 100 candles.
   - Every `Math.random()` draw is passed in as a value in `[0, 1)`. Every
     clock reading is passed in as an integer. Prices are reals, so each step
     is a deterministic function.
2. **The wager lifecycle.**
   - Placing a trade validates the stake, debits it and prepends an active
     trade.
   - Settlement marks the trade won or lost against the current price. A win
     pays 1.9 times the stake.
   - The recent-trades sweep reports every active trade whose end time has
     passed.
   - The per-trade countdown fires completion once and renders `MM:SS`.
3. **Helpers inside the chart and profile components.**
   - Upserting exchange klines into a bounded candle window.
   - Reconciling the per-trade entry lines with the active trade ids.
   - The zoom-in and zoom-out range arithmetic.
   - The avatar initials.

Modules, one per file:

| module | file | what it holds |
|---|---|---|
| `Options` | `options.dfy` | `Option`, for the source's `undefined`, `null` and `NaN` |
| `Decimal` | `decimal.dfy` | digit strings: `toString`, `padStart`, digit filtering, `parseInt` |
| `Candles` | `candles.dfy` | the OHLC candle, its ordering invariant, and keeping the last `n` |
| `PriceFeed` | `price_feed.dfy` | the price generator |
| `Ledger` | `ledger.dfy` | placement and settlement |
| `Expiry` | `expiry.dfy` | the expiry sweep |
| `TradeTimer` | `trade_timer.dfy` | the countdown and its formatting |
| `KlineWindow` | `kline_window.dfy` | the live candle window |
| `TradeLines` | `trade_lines.dfy` | entry-line reconciliation |
| `Zoom` | `zoom.dfy` | zoom buttons |
| `Initials` | `initials.dfy` | avatar initials |

Behaviours of the code worth knowing before reading the contracts:

- **The `1h` trade duration is 60000 ms.** Placement reads the label's digits
  and multiplies by 1000 when the label contains `s`, and by 60000
  otherwise, so `1h` reads as one minute. See `Ledger.DurationOfTimeframes`.
  The chart interval for `1h` is 3600 s, because every label the interval
  table does not list maps to 3600.
- **A regime lasts 5 to 14 steps.** The count is `5 + floor(10 * u)` for a
  draw `u` in `[0, 1)`.
- **History is built once.** The generation flag is set by the first history
  and never cleared, so a later change of asset or timeframe keeps the old
  candles (`PriceFeed.GenerateInitialData`).
- **An invalid stake is rejected without a message.** A `NaN` or
  non-positive stake returns before any toast. The model reports this as the
  `InvalidAmount` outcome.
- **Zooming out clamps the left edge at 0.** For a range that starts left of
  zero, the left edge therefore moves right: `(-10, 50)` becomes `(0, 68)`
  (`Zoom.ZoomOutNegativeFrom`).

## Model

| member | source | states |
|---|---|---|
| `PriceFeed.IntervalSeconds` | hooks/useChartData.ts:66-73 | Every interval is between 30 s and 3600 s and a multiple of 30. Any label other than the six known ones gets 3600. |
| `PriceFeed.IntervalOfTimeframes` | hooks/useChartData.ts:66-73 | `30s`, `1m`, `5m`, `10m`, `15m` and `30m` give 30, 60, 300, 600, 900 and 1800. `1h` gives 3600. |
| `PriceFeed.BasePrice` | hooks/useChartData.ts:147-162 | The starting price lies in the asset's half-open range: bitcoin `[30000, 40000)`, cardano `[0.3, 0.5)`, unknown assets `[100, 1000)`. It is never below 0.3. |
| `PriceFeed.DrawTrend` | hooks/useChartData.ts:103-111 | A fresh regime goes up exactly when the draw exceeds 0.5, and down otherwise. It lasts 5 to 14 steps, with strength in `[0.3, 1.0)`. |
| `PriceFeed.AdvanceTrend` | hooks/useChartData.ts:176-181 | With steps left, the regime keeps its direction and strength and its counter drops by one. With none left it is redrawn, and the redrawn counter also drops by one. A valid regime stays valid. |
| `PriceFeed.NextPrice` | hooks/useChartData.ts:189 | The new price is never below 0.01. It is the moved price when that is above the floor, and exactly 0.01 otherwise. |
| `PriceFeed.StepBounded` | hooks/useChartData.ts:184-189 | Under a valid regime the relative move is strictly within ±1.25%. The next price of a positive price stays within those bounds, apart from the floor. |
| `PriceFeed.CandleTimeAligned` | hooks/useChartData.ts:100 | Candle `i`'s time is `floor(now/I) - (99 - i)` whole intervals, so it is a multiple of the interval. |
| `PriceFeed.HistoricalCandle` | hooks/useChartData.ts:118-133 | For positive prices the candle keeps its time, open and close and satisfies `low <= min(open, close) <= max(open, close) <= high`. Its low is positive. The wicks extend between 0.5% and 1.5% beyond the body. |
| `PriceFeed.GenerateFrom` | hooks/useChartData.ts:98-134 | The remaining history has one candle per index, at its aligned time, every candle OHLC-ordered. Each candle opens at the previous close, every close is at least 0.01, the first opens at the starting price, and the price carried on is the last close. |
| `PriceFeed.InitialFeed` | hooks/useChartData.ts:79-143 | A fresh history has exactly 100 candles, aligned and exactly one interval apart. The last is at `floor(now/I)*I`, the first opens at the base price, and the feed invariant holds. |
| `PriceFeed.GenerateInitialData` | hooks/useChartData.ts:76-144 | Once history exists the call changes nothing, whatever asset or timeframe is selected. Otherwise it builds the 100-candle history from the asset's base price, with the last candle at the current interval boundary. |
| `PriceFeed.FirstTick` | hooks/useChartData.ts:165-169 | A tick before any history exists builds the history: 100 candles satisfying the feed invariant, the last one starting at the current interval boundary. |
| `PriceFeed.OpenCandle` | hooks/useChartData.ts:196-204 | A new candle's time is aligned and in `(now - I, now]`. It opens at the previous close, has high/low equal to max/min of that close and the new price, closes at the new price, and is OHLC-ordered. |
| `PriceFeed.UpdateCandle` | hooks/useChartData.ts:222-227 | An in-place update keeps time and open and widens high and low to the new price, which becomes the close. The OHLC ordering is preserved. |
| `PriceFeed.Step` | hooks/useChartData.ts:171-193 | A tick moves the last price if it is positive, otherwise the last candle's close. The regime advances once, the new price is at least 0.01, and the last candle closes at it. |
| `PriceFeed.StepInPlace` | hooks/useChartData.ts:214-230 | Within the current interval only the last candle changes. Its time and open are kept, high and low are max/min with the new price, and the close is the new price. All earlier candles are untouched. |
| `PriceFeed.StepAppends` | hooks/useChartData.ts:196-213 | After a whole interval, one aligned candle is appended, strictly later than the last, with the stated OHLC. The window grows by one up to 100 and keeps the newest candles in order. |
| `PriceFeed.StepPreservesFeed` | hooks/useChartData.ts:171-234 | Every tick preserves the feed invariant: 1 to 100 OHLC-ordered candles, aligned, with strictly increasing times, each opening at the previous close. The last price equals the last close and is at least 0.01. |
| `PriceFeed.TickPreservesFeed` | hooks/useChartData.ts:165-234 | A tick of the hook on a running feed preserves the feed invariant. |
| `PriceFeed.UpdatePriceAndCandle` | hooks/useChartData.ts:165-234 | After a tick the history flag is set. With the flag set and no candles the tick changes nothing. With candles, the regime advances once, the last price moves to `NextPrice` of the previous one, and the clock reading is recorded. |
| `PriceFeed.StepKeepsRunning` | hooks/useChartData.ts:171-234 | At any interval, even one the candles were not built for, a tick keeps 1 to 100 OHLC-ordered candles with strictly increasing times, each opening at the previous close, and a floored last price equal to the last close. |
| `PriceFeed.TickAfterSwitch` | hooks/useChartData.ts:165-234 | After a timeframe switch, which keeps the old candles, the hook's tick still preserves that running-feed invariant. |
| `PriceFeed.StaleTick` | hooks/useChartData.ts:56-63 | The tick the interval callback runs: once history exists it changes nothing. Before that it builds a history satisfying the feed invariant. |
| `PriceFeed.StaleTickFreezesPrice` | hooks/useChartData.ts:56-63 | On a running feed in an upward regime with steps left and a neutral noise draw, the callback's tick leaves the price unchanged. A tick that reads the current candles raises it. |
| `PriceFeed.TimesIncreasing` | hooks/useChartData.ts:196-213 | In a running feed every earlier candle has a strictly earlier time than every later one. |
| `Candles.KeepLast` | hooks/useChartData.ts:207-212 | Trimming keeps at most `n` elements. A short list is unchanged, a long one keeps exactly `n`, and the result is always a suffix. |
| `Candles.KeepLastAppend` | hooks/useChartData.ts:207-212 | After appending and trimming, the appended element is last and the rest is the most recent part of the old list. |
| `Decimal.NatToString` | components/TradeTimer.tsx:34 | `toString` of a whole number is a non-empty digit string without leading zeros. It has one digit exactly below 10 and at most two exactly below 100. |
| `Decimal.ParsePrinted` | components/TradeTimer.tsx:34 | Reading the printed digits back gives the number. |
| `Decimal.PadStart2` | components/TradeTimer.tsx:34 | Padding gives at least two characters: zeros followed by the original text, which is unchanged when it already has two. |
| `Decimal.KeepDigits` | app/page.tsx:99 | Removing non-digits leaves only digits and never lengthens the text. It is empty exactly when the text has no digit. A single character is kept exactly when it is a digit. |
| `Decimal.KeepDigitsAppend` | app/page.tsx:99 | Filtering a concatenation concatenates the filtered parts. With the one-character cases, the result is the digits of the text, in order. |
| `Decimal.KeepDigitsOfDigits` | app/page.tsx:99 | A digit string is left unchanged, so the filter is idempotent. |
| `Decimal.ParseInt` | app/page.tsx:99 | `parseInt` of the digits is `NaN` (`None`) exactly when there are no digits. |
| `Decimal.ParseIntPrinted` | app/page.tsx:99 | `parseInt` reads a printed number back as that number, with or without leading zeros. |
| `Ledger.DurationMs` | app/page.tsx:99 | The duration is `NaN` exactly when the label has no digit. It is a multiple of 1000 ms when the label contains `s` and of 60000 ms otherwise. |
| `Ledger.DurationOfTimeframes` | app/page.tsx:99 | `30s` gives 30000 ms and `5m` gives 300000 ms. `1h` gives 60000 ms. |
| `Ledger.DurationOfMinuteTimeframes` | app/page.tsx:99 | `10m`, `15m` and `30m` give 600000, 900000 and 1800000 ms. |
| `Ledger.OfferedDuration` | app/page.tsx:99 | Every offered timeframe has a defined, positive duration, so a placed trade ends after it starts. |
| `Ledger.PlaceTrade` | app/page.tsx:78-120 | Each outcome holds exactly when its condition holds: no user, a `NaN` or non-positive stake, a stake above the balance (equal is accepted), or placed. A rejection changes nothing. A placement prepends one active trade at the current price ending `duration` after it starts, keeps the old trades in order, and debits exactly the stake. |
| `Ledger.FindTrade` | app/page.tsx:125 | The lookup gives the first position with the id, and nothing exactly when no trade has it. |
| `Ledger.WinsExclusive` | app/page.tsx:130-133 | A tie never wins, the two directions never both win, and any other price makes one of them win. |
| `Ledger.ReplaceById` | app/page.tsx:147-149 | The list keeps its length, and each position holds the update exactly when its id matches. |
| `Ledger.Settled` | app/page.tsx:129-144 | The trade is won exactly when it wins against its entry price (missing counts as 0) and lost otherwise. The result is 1.9 times the stake on a win and 0 on a loss, and the final price is recorded. Nothing else changes. |
| `Ledger.Settle` | app/page.tsx:123-161 | An unknown id, a settled trade or no user leaves everything unchanged. Otherwise the list keeps its length and ids, other trades are untouched, and the found trade ends non-active. |
| `Ledger.SettleActive` | app/page.tsx:136-157 | With unique ids, settling an active trade replaces just that trade with its settled form. A win credits exactly 1.9 times the stake and a loss leaves the balance. |
| `Ledger.SettleIdempotent` | app/page.tsx:126 | Settling again, at any price, changes nothing: the payout happens at most once. |
| `Ledger.PlacePreserves` | app/page.tsx:100-115 | Placement keeps ids unique and records consistent, and keeps balance plus stakes-at-risk constant. |
| `Ledger.SettlePreserves` | app/page.tsx:139-157 | Settlement keeps the ledger invariant. The balance plus what the trades have taken out stays constant. |
| `Ledger.SettlementExamples` | app/page.tsx:90-136 | Up from 100 to 101 wins 1.9 times the stake, a tie at 100 loses, and down to 99 wins for a fall. A stake of 150 against a balance of 100 is refused. |
| `Expiry.Expired` | components/RecentTrades.tsx:35-37 | A trade is swept exactly when it is active and its end time is at or before now. |
| `Expiry.ExpiredConcat` | components/RecentTrades.tsx:35-37 | The sweep keeps list order. |
| `Expiry.ExpiredIdsExactly` | components/RecentTrades.tsx:35-43 | An id is reported to the completion handler exactly when some trade carrying it is active and due. |
| `Expiry.ExpiredIdsConcat` | components/RecentTrades.tsx:35-43 | The reported ids keep list order: the ids of two lists joined are those of the first followed by those of the second. |
| `Expiry.ExpiryBoundary` | components/RecentTrades.tsx:36 | An active trade is not swept one millisecond before its end, and is swept at its end and after. |
| `Expiry.NotExpiredUntouched` | components/RecentTrades.tsx:36 | With unique ids, no trade that is settled or not yet due is reported. |
| `Expiry.SettleAll` | components/RecentTrades.tsx:40-43 | Completing the ids one after another keeps the trade count, each position's id and the signed-in state, and leaves every trade whose id is not named unchanged. |
| `Expiry.SettleAllSettles` | components/RecentTrades.tsx:40-43 | With unique ids and a signed-in user, every named trade ends settled. |
| `Expiry.SettleAllKeepsSettled` | app/page.tsx:126 | With unique ids, a settled trade is never reopened or changed by later completions. |
| `Expiry.Sweep` | components/RecentTrades.tsx:30-44 | With unique ids, a sweep changes no trade that is not due. |
| `Expiry.SweepCompletes` | components/RecentTrades.tsx:30-44 | With unique ids and a signed-in user, no trade is due after a sweep, and sweeping again changes nothing. |
| `TradeTimer.Start` | components/TradeTimer.tsx:11 | The countdown starts at `floor(duration / 1000)` seconds, armed. |
| `TradeTimer.Tick` | components/TradeTimer.tsx:16-23 | Completion fires exactly when an armed count is at most 1, which sets the count to 0 and disarms. Otherwise the count drops by one. A disarmed timer is unchanged, and an armed tick never leaves a negative count. |
| `TradeTimer.RunFiresOnce` | components/TradeTimer.tsx:15-24 | Completion fires exactly once, on tick `max(1, seconds)`. Before that the count shows `seconds - n`, and after it the count is 0. |
| `TradeTimer.Run` | components/TradeTimer.tsx:15-24 | From any timer, completion fires at most once and leaves the timer cleared at 0. A cleared timer never fires again and never changes. |
| `TradeTimer.CountdownCompletesOnce` | components/TradeTimer.tsx:11-24 | From a duration, completion fires once, after `max(1, floor(duration / 1000))` ticks. The count of a non-negative duration never goes negative. |
| `TradeTimer.FormatTimeShape` | components/TradeTimer.tsx:31-35 | The text is at least two digits of minutes, a colon, and exactly two digits of seconds. |
| `TradeTimer.FormatTimeRoundTrip` | components/TradeTimer.tsx:31-35 | Reading the text back gives `minutes*60 + seconds == n`, and the seconds field is `n % 60`, below 60. |
| `TradeTimer.FormatTimeWidth` | components/TradeTimer.tsx:34 | The text is exactly five characters exactly when `n < 6000`. |
| `KlineWindow.FromKline` | components/TradingChart.new.tsx:81-87 | The candle's second is the one holding the kline's start millisecond, exact for whole seconds. The prices are carried over. |
| `KlineWindow.FindTime` | components/TradingChart.new.tsx:96 | The lookup gives the first candle with the time, and nothing exactly when none has it. |
| `KlineWindow.Upsert` | components/TradingChart.new.tsx:93-111 | The window never exceeds 100 candles, and a full window stays full. |
| `KlineWindow.UpsertReplaces` | components/TradingChart.new.tsx:96-99 | A known time replaces the first candle with that time, in place. Nothing else changes and the length is kept. |
| `KlineWindow.UpsertAppends` | components/TradingChart.new.tsx:100-108 | A new time is appended last after the newest part of the old window. Below 100 candles nothing is dropped. |
| `KlineWindow.UpsertFinds` | components/TradingChart.new.tsx:93-111 | After an upsert, looking the time up finds the delivered candle. |
| `KlineWindow.UpsertIdempotent` | components/TradingChart.new.tsx:93-111 | Delivering the same kline twice gives the same window as once. |
| `KlineWindow.UpsertKeepsDistinct` | components/TradingChart.new.tsx:93-111 | A window with distinct candle times keeps them distinct. |
| `TradeLines.ChartTrades` | app/page.tsx:228-231 | The chart receives no more trades than the list holds, and each one is the view of an active trade. |
| `TradeLines.ChartTradesConcat` | app/page.tsx:228-231 | The views keep list order: the views of two lists joined are the views of the first followed by those of the second. |
| `TradeLines.ChartTradesSingle` | app/page.tsx:228-231 | One trade is viewed as itself when active, and not at all otherwise. |
| `TradeLines.ChartTradesExactlyActive` | app/page.tsx:228-231 | The chart receives exactly the active trades. Each uses its entry price when present and non-zero, and the current price otherwise. |
| `TradeLines.ViewLineAgainstSettlement` | app/page.tsx:228-231 | With a set, non-zero entry price the drawn line sits at the price settlement compares with and never moves with the market; without one the line follows the current price while settlement compares with 0; the line is green exactly for an up trade. |
| `TradeLines.EntryLineDetermines` | components/TradingChart.tsx:307-321 | Two trades get the same line exactly when they share entry price and direction, so a line gives both back. |
| `TradeLines.Colour` | components/TradingChart.tsx:308 | Teal `#26a69a` exactly for a rise, `#ef5350` for a fall. |
| `TradeLines.Lookup` | components/TradingChart.new.tsx:326-341 | A trade is found exactly when the id is active. The one found has the id and is the first active trade with it. |
| `TradeLines.RemoveInactiveCompose` | components/TradingChart.new.tsx:311-323 | Removing in two passes equals removing once with the ids active in both; a repeated pass removes nothing more, and nothing is removed while every line's trade is active. |
| `TradeLines.AddMissing` | components/TradingChart.new.tsx:326-341 | Adding keeps every existing line unchanged, and the ids afterwards are the old ids plus the active ids. |
| `TradeLines.AddMissingSpec` | components/TradingChart.new.tsx:326-341 | A line added for a new active id is the line of the first trade with that id. |
| `TradeLines.SyncIsIntended` | components/TradingChart.tsx:296-324 | A pass yields exactly one line per active id: the existing line where there is one, otherwise a new line for the first trade with that id. |
| `TradeLines.Sync` | components/TradingChart.tsx:296-324 | After a pass the line ids are exactly the active trade ids, and existing lines are never redrawn. |
| `TradeLines.SyncIdempotent` | components/TradingChart.tsx:296-324 | Running the effect again with the same trades changes nothing. |
| `Zoom.ZoomIn` | components/TradingChart.tsx:388-394 | Zooming in keeps the midpoint, makes the width 0.6 of the old, and nests the new range in the old. No visible range means no change. |
| `Zoom.ZoomOut` | components/TradingChart.tsx:413-420 | The right edge moves out by 0.3 of the width. The left edge moves out by 0.3 of the width, or to exactly 0 when that would pass 0. A non-negative range is contained in the result. Away from 0 the width grows to 1.6 times about the same midpoint. |
| `Zoom.ZoomOutNegativeFrom` | components/TradingChart.tsx:413-420 | For a range starting left of zero the clamp moves the left edge right: `(-10, 50)` becomes `(0, 68)`. |
| `Zoom.ZoomInTimesScales` | components/TradingChart.tsx:388-394 | After `k` presses the width is `0.6^k` of the original, about the same midpoint. |
| `Zoom.ZoomInTimesNested` | components/TradingChart.tsx:388-394 | Repeated presses stay inside the original range. |
| `Initials.Split` | components/UserProfile.tsx:18 | Splitting gives at least one piece, and no piece contains a space. |
| `Initials.SplitJoin` | components/UserProfile.tsx:18 | Joining the pieces with spaces gives the name back. There is one more piece than there are spaces. |
| `Initials.FirstCharsAreWordStarts` | components/UserProfile.tsx:17-21 | The first characters of the pieces are exactly the characters that begin a word: not a space, and at the start or after a space. |
| `Initials.Upper` | components/UserProfile.tsx:21 | Upper-casing keeps the length and maps each character on its own. |
| `Initials.InitialsOf` | components/UserProfile.tsx:17-21 | The initials are the upper-cased word-starting characters, at most one more than the number of spaces. |
| `Initials.SingleWord` | components/UserProfile.tsx:17-21 | A name without spaces gives its upper-cased first character alone. |

## Left out

- Rendering and side effects are not modelled: React state and effects,
  toasts, routing, the WebSocket connection, `localStorage` persistence, and
  the chart library's drawing calls. Each effect is modelled as the state
  change it computes.
- The backend and the auth context are not part of this model.
  `updateUserBalance` is taken to succeed. It never rejects, so the
  `try/catch` blocks around placement and settlement never see a failure:
  placement still prepends the trade, and settlement still records the trade
  as won or lost. Its failures take one of two paths, and neither is
  modelled.
  - The server answers with a non-OK status (AuthContext.tsx:150-156): a
    toast shows the server's message and the profile is reloaded. The local
    balance becomes the reloaded profile's balance. If that reload also
    fails, it stays where it was.
  - An error is thrown (AuthContext.tsx:137-138, 141, 153, 158-160): the
    token is missing, the request is rejected, or the error body is not
    JSON. The error is logged and a toast shown, and nothing is reloaded.
    The local balance stays where it was. A placed trade is then listed
    while its stake is never debited on screen, and a win is never credited.
- `Expiry.SettleAll`: the model passes each completion the account left by
  the one before, so two wins in one sweep credit both payouts. In the
  source, every completion of one sweep runs the same `handleTradeComplete`
  closure. That closure reads `trades`, `user` and `currentPrice` from a
  single render (page.tsx:125-133, 153). Each win therefore sets the local
  balance to the same stale balance plus its own payout, and the screen
  shows only the last credit. The backend still receives every delta
  (AuthContext.tsx:147). The model does not reproduce the lost local
  credits.
- The stale closure in the hook's interval callback is recorded under
  "## Findings" (`PriceFeed.StaleTick`). The rest of the model uses the tick
  that reads the current candles (`PriceFeed.UpdatePriceAndCandle`). As the
  source is written, the live price never moves within one page load after
  the history is built. Every trade placed during that load then settles at
  its entry price, and a tie loses. A trade restored from `localStorage`
  after a reload (page.tsx:51-68) keeps the entry price of the earlier load,
  while the new load draws a new base price, so such a trade settles against
  a different price and can win.
- Floating point is not modelled. Prices are exact reals, and `NaN` is
  modelled only where the source tests for it (`parseFloat` of the stake as
  `None`). `toFixed` formatting is left out.
- `Ledger.PlaceTrade` reads the clock once. The source calls `Date.now()`
  separately for the id, the start and the end. Two trades placed in the
  same millisecond would share an id; the ledger invariant's premise
  excludes that.
- The unsigned-in branch of placement redirects to the login page. The model
  only reports `NotSignedIn` and changes nothing.
- The hook's `volatility` field and the 500 ms tick scheduling are not
  modelled. The volatility field is never read.
- `KlineWindow.FromKline` divides the start time with integer division. It
  is exact for exchange klines, which start on whole seconds. A fractional
  second is not modelled.
- The target-price lines that `TradingChart.new.tsx` creates are left out.
  They are never stored or removed, and the trades the screen passes carry
  no target price.
- Removal of a line is taken to succeed. The `try/catch` around it in
  `TradingChart.new.tsx` is not modelled.
- `Initials.Upper` maps only the ASCII letters `a` to `z`. Full Unicode case
  mapping is not modelled.
- `Initials.InitialsOf`: model characters are Unicode scalar values, while
  `name[0]` in UserProfile.tsx:17-21 takes one UTF-16 code unit. For a word
  that starts with a character outside the Basic Multilingual Plane (an
  emoji, say), the source takes a lone high surrogate and the model takes
  the whole character. Code units and surrogate pairs are not modelled.
- `TradeTimer.FormatTime`, `Ledger.Wins`, `Expiry.IsExpired`, `Expiry.ExpiredIds`,
  `TradeLines.EntryOrCurrent`, `TradeLines.EntryLine` and
  `TradeLines.RemoveInactive` only compute; the postconditions the last four
  carry describe how they compute, for the proofs that use them. Their
  meaning is stated by the lemmas about them: `TradeTimer.FormatTimeShape`,
  `TradeTimer.FormatTimeRoundTrip`, `Ledger.WinsExclusive`,
  `Expiry.ExpiryBoundary`, `Expiry.Expired`, `Expiry.ExpiredIdsExactly`,
  `Expiry.ExpiredIdsConcat`, `TradeLines.ViewLineAgainstSettlement`,
  `TradeLines.ChartTradesExactlyActive`, `TradeLines.EntryLineDetermines`,
  `TradeLines.AddMissingSpec`, `TradeLines.RemoveInactiveCompose` and
  `TradeLines.SyncIsIntended`.

## Findings

| source | as written | input that shows it | evidently intended | confidence | as-written member | corrected member |
|---|---|---|---|---|---|---|
| hooks/useChartData.ts:56-63 | The interval callback is created once, and its effect depends only on `updateInterval`. The callback reads the candle list of the first render, which is empty. So every tick takes the build-history branch at line 166 and returns, and once history exists nothing moves. | A running feed in an upward regime with steps left and a noise draw of 0.5. The callback's tick keeps the price, while a tick on the current candles raises it. | Each tick advances the regime and moves the price from the current candles. | not executed; high | `PriceFeed.StaleTickFreezesPrice` | `PriceFeed.UpdatePriceAndCandle` |
