/**
 * The wager ledger of the trading screen: placing an up/down trade debits
 * the stake, and settling an active trade against the current price marks it
 * won or lost and credits 1.9 times the stake on a win.
 *
 * A trade id is the millisecond clock reading at placement (the source
 * stores its decimal string, which identifies the same trades).
 */
module Ledger {
  import opened Options
  import Decimal

  datatype Direction = Higher | Lower

  datatype Status = Active | Won | Lost

  /** One trade; `result`, `entryPrice` and `finalPrice` are optional as in the source record. */
  datatype Trade = Trade(
    id: int,
    amount: real,
    direction: Direction,
    status: Status,
    duration: int,
    startTime: int,
    endTime: int,
    result: Option<real>,
    entryPrice: Option<real>,
    finalPrice: Option<real>)

  /** The trade list together with the signed-in user's balance (`None` when nobody is signed in). */
  datatype Account = Account(trades: seq<Trade>, balance: Option<real>)

  /** What a placement attempt did. */
  datatype Placement = Placed | NotSignedIn | InvalidAmount | InsufficientBalance

  /** The duration labels the screen offers. */
  const Timeframes: seq<string> := ["30s", "1m", "5m", "10m", "15m", "30m", "1h"]

  /** Win payout as a multiple of the stake. */
  const PayoutRatio: real := 1.9

  // ---------------------------------------------------------------- duration

  /**
   * Duration of a timeframe in milliseconds: the timeframe's digits read as a number,
   * times 1000 if the timeframe contains `s` and times 60000 otherwise. A timeframe
   * without digits gives `NaN`, here `None`.
   */
  function DurationMs(timeframe: string): (ms: Option<nat>)
    ensures ms.None? <==> forall i :: 0 <= i < |timeframe| ==> !Decimal.IsDigit(timeframe[i])
    ensures ms.Some? && 's' in timeframe ==> ms.value % 1000 == 0
    ensures ms.Some? && 's' !in timeframe ==> ms.value % 60000 == 0
  {
    match Decimal.ParseInt(Decimal.KeepDigits(timeframe))
    case None => None
    case Some(n) => Some(n * (if 's' in timeframe then 1000 else 60000))
  }

  /** Durations of the offered timeframes; `1h` reads as one minute, since only `s` is checked. */
  lemma DurationOfTimeframes()
    ensures DurationMs("30s") == Some(30000)
    ensures DurationMs("1m") == Some(60000)
    ensures DurationMs("5m") == Some(300000)
    ensures DurationMs("1h") == Some(60000)
  {
    DurationOfLabel("30s", "30", 's', 30, 1000);
    DurationOfLabel("1m", "1", 'm', 1, 60000);
    DurationOfLabel("5m", "5", 'm', 5, 60000);
    DurationOfLabel("1h", "1", 'h', 1, 60000);
  }

  /** The remaining minute timeframes. */
  lemma DurationOfMinuteTimeframes()
    ensures DurationMs("10m") == Some(600000)
    ensures DurationMs("15m") == Some(900000)
    ensures DurationMs("30m") == Some(1800000)
  {
    DurationOfLabel("10m", "10", 'm', 10, 60000);
    DurationOfLabel("15m", "15", 'm', 15, 60000);
    DurationOfLabel("30m", "30", 'm', 30, 60000);
  }

  /** A label made of a number and a unit letter. */
  lemma DurationOfLabel(timeframe: string, digits: string, unit: char, n: nat, scale: nat)
    requires timeframe == digits + [unit]
    requires Decimal.AllDigits(digits) && digits != [] && Decimal.ParseDigits(digits) == n
    requires !Decimal.IsDigit(unit) && scale == (if unit == 's' then 1000 else 60000)
    ensures DurationMs(timeframe) == Some(n * scale)
  {
    var name := timeframe;
    Decimal.KeepDigitsSnoc(digits, unit);
    Decimal.KeepDigitsOfDigits(digits);
    assert 's' in name <==> unit == 's' by {
      assert forall i :: 0 <= i < |digits| ==> name[i] == digits[i];
    }
  }

  /** Every offered timeframe has a positive duration. */
  lemma OfferedDuration(timeframe: string)
    requires timeframe in Timeframes
    ensures DurationMs(timeframe).Some? && DurationMs(timeframe).value > 0
  {
    if timeframe == "30s" {
      DurationOfLabel("30s", "30", 's', 30, 1000);
    } else if timeframe == "1m" {
      DurationOfLabel("1m", "1", 'm', 1, 60000);
    } else if timeframe == "5m" {
      DurationOfLabel("5m", "5", 'm', 5, 60000);
    } else if timeframe == "10m" {
      DurationOfLabel("10m", "10", 'm', 10, 60000);
    } else if timeframe == "15m" {
      DurationOfLabel("15m", "15", 'm', 15, 60000);
    } else if timeframe == "30m" {
      DurationOfLabel("30m", "30", 'm', 30, 60000);
    } else {
      DurationOfLabel("1h", "1", 'h', 1, 60000);
    }
  }

  // --------------------------------------------------------------- placement

  /** A stake `parseFloat` produced that the screen accepts: a number above zero. */
  predicate ValidStake(stake: Option<real>) {
    stake.Some? && stake.value > 0.0
  }

  /**
   * Places a trade: rejected without a signed-in user, for a `NaN` or
   * non-positive stake, or for a stake above the balance; otherwise the stake
   * is debited and a new active trade, entered at the current price, is put
   * in front of the list.
   */
  function PlaceTrade(a: Account, direction: Direction, stake: Option<real>, timeframe: string, nowMs: int, currentPrice: real): (r: (Account, Placement))
    requires timeframe in Timeframes
    ensures r.1 == NotSignedIn <==> a.balance.None?
    ensures r.1 == InvalidAmount <==> a.balance.Some? && !ValidStake(stake)
    ensures r.1 == InsufficientBalance <==> a.balance.Some? && ValidStake(stake) && stake.value > a.balance.value
    ensures r.1 == Placed <==> a.balance.Some? && ValidStake(stake) && stake.value <= a.balance.value
    ensures r.1 != Placed ==> r.0 == a
    ensures r.1 == Placed ==>
      && |r.0.trades| == |a.trades| + 1
      && r.0.trades[1..] == a.trades
      && r.0.balance == Some(a.balance.value - stake.value)
      && r.0.balance.value >= 0.0
    ensures r.1 == Placed ==>
      var t := r.0.trades[0];
      && t.id == nowMs && t.startTime == nowMs
      && t.amount == stake.value && t.direction == direction && t.status == Active
      && t.duration > 0 && t.endTime == t.startTime + t.duration
      && Some(t.duration) == DurationMs(timeframe)
      && t.entryPrice == Some(currentPrice)
      && t.result.None? && t.finalPrice.None?
  {
    if a.balance.None? then (a, NotSignedIn)
    else if !ValidStake(stake) then (a, InvalidAmount)
    else if stake.value > a.balance.value then (a, InsufficientBalance)
    else
      OfferedDuration(timeframe);
      var duration := DurationMs(timeframe).value;
      var t := Trade(nowMs, stake.value, direction, Active, duration, nowMs, nowMs + duration, None, Some(currentPrice), None);
      (Account([t] + a.trades, Some(a.balance.value - stake.value)), Placed)
  }

  // -------------------------------------------------------------- settlement

  /** Index of the first trade with the given id (`Array.prototype.find`). */
  function FindTrade(trades: seq<Trade>, id: int): (r: Option<nat>)
    ensures r.Some? ==> r.value < |trades| && trades[r.value].id == id
    ensures r.Some? ==> forall j :: 0 <= j < r.value ==> trades[j].id != id
    ensures r.None? <==> forall j :: 0 <= j < |trades| ==> trades[j].id != id
  {
    if trades == [] then None
    else if trades[0].id == id then Some(0)
    else match FindTrade(trades[1..], id)
      case None => None
      case Some(k) => Some(k + 1)
  }

  /** Win rule: strictly above the entry for `Higher`, strictly below for `Lower`. */
  predicate Wins(direction: Direction, entry: real, price: real) {
    match direction
    case Higher => price > entry
    case Lower => price < entry
  }

  /** A tie never wins, and the two directions never both win. */
  lemma WinsExclusive(entry: real, price: real)
    ensures !Wins(Higher, entry, entry) && !Wins(Lower, entry, entry)
    ensures !(Wins(Higher, entry, price) && Wins(Lower, entry, price))
    ensures price != entry ==> Wins(Higher, entry, price) || Wins(Lower, entry, price)
  {
  }

  /** `trades.map(t => t.id === id ? updated : t)`. */
  function ReplaceById(trades: seq<Trade>, id: int, updated: Trade): (r: seq<Trade>)
    ensures |r| == |trades|
    ensures forall i :: 0 <= i < |r| ==> r[i] == if trades[i].id == id then updated else trades[i]
  {
    if trades == [] then [] else [if trades[0].id == id then updated else trades[0]] + ReplaceById(trades[1..], id, updated)
  }

  /** The trade after settling at `price`. A missing entry price counts as zero. */
  function Settled(t: Trade, price: real): (s: Trade)
    ensures s.id == t.id && s.amount == t.amount && s.direction == t.direction
    ensures s.duration == t.duration && s.startTime == t.startTime && s.endTime == t.endTime
    ensures s.entryPrice == t.entryPrice && s.finalPrice == Some(price)
    ensures s.status == Won <==> Wins(t.direction, t.entryPrice.GetOr(0.0), price)
    ensures s.status == Lost <==> !Wins(t.direction, t.entryPrice.GetOr(0.0), price)
    ensures s.status == Won ==> s.result == Some(t.amount * PayoutRatio)
    ensures s.status == Lost ==> s.result == Some(0.0)
  {
    var win := Wins(t.direction, t.entryPrice.GetOr(0.0), price);
    t.(status := if win then Won else Lost, result := Some(if win then t.amount * PayoutRatio else 0.0), finalPrice := Some(price))
  }

  /**
   * Settles trade `id` at `price`. Nothing happens when the id is unknown,
   * the first trade with that id is no longer active, or nobody is signed in.
   * Otherwise every trade with that id becomes the settled trade and a win
   * credits `amount * 1.9` to the balance.
   */
  function Settle(a: Account, id: int, price: real): (r: Account)
    ensures FindTrade(a.trades, id).None? ==> r == a
    ensures a.balance.None? ==> r == a
    ensures FindTrade(a.trades, id).Some? && a.trades[FindTrade(a.trades, id).value].status != Active ==> r == a
    ensures |r.trades| == |a.trades|
    ensures forall i :: 0 <= i < |a.trades| && a.trades[i].id != id ==> r.trades[i] == a.trades[i]
    ensures forall i :: 0 <= i < |a.trades| ==> r.trades[i].id == a.trades[i].id
    ensures r.balance.Some? <==> a.balance.Some?
    ensures a.balance.Some? && FindTrade(a.trades, id).Some? ==> r.trades[FindTrade(a.trades, id).value].status != Active
  {
    match FindTrade(a.trades, id)
    case None => a
    case Some(k) =>
      var t := a.trades[k];
      if t.status != Active || a.balance.None? then a
      else
        var s := Settled(t, price);
        var credit := if s.status == Won then s.result.value else 0.0;
        Account(ReplaceById(a.trades, id, s), Some(a.balance.value + credit))
  }

  /** Settling the active trade with a unique id changes only that trade and credits exactly its payout. */
  lemma SettleActive(a: Account, k: nat, price: real)
    requires UniqueIds(a.trades) && k < |a.trades| && a.trades[k].status == Active && a.balance.Some?
    ensures var r := Settle(a, a.trades[k].id, price);
      var t := a.trades[k];
      var win := Wins(t.direction, t.entryPrice.GetOr(0.0), price);
      && r.trades == a.trades[k := Settled(t, price)]
      && (win ==> r.balance == Some(a.balance.value + t.amount * 1.9))
      && (!win ==> r.balance == a.balance)
  {
    var t := a.trades[k];
    FindUnique(a.trades, k);
    var r := Settle(a, t.id, price);
    assert r.trades == a.trades[k := Settled(t, price)];
  }

  /** Settling twice is settling once: the second call finds the trade no longer active. */
  lemma SettleIdempotent(a: Account, id: int, price: real, price': real)
    ensures Settle(Settle(a, id, price), id, price') == Settle(a, id, price)
  {
    var r := Settle(a, id, price);
    var found := FindTrade(a.trades, id);
    if found.Some? && a.balance.Some? && a.trades[found.value].status == Active {
      var k := found.value;
      assert FindTrade(r.trades, id) == Some(k) by {
        FindSame(a.trades, r.trades, id, k);
      }
    }
  }

  lemma FindSame(s: seq<Trade>, s': seq<Trade>, id: int, k: nat)
    requires |s| == |s'| && forall i :: 0 <= i < |s| ==> s'[i].id == s[i].id
    requires FindTrade(s, id) == Some(k)
    ensures FindTrade(s', id) == Some(k)
  {
    assert s'[k].id == id;
    assert forall j :: 0 <= j < k ==> s'[j].id != id by {
      assert forall j :: 0 <= j < k ==> s[j].id != id;
    }
  }

  // -------------------------------------------------------------- invariants

  /** No two trades share an id. */
  predicate UniqueIds(trades: seq<Trade>) {
    forall i, j :: 0 <= i < j < |trades| ==> trades[i].id != trades[j].id
  }

  lemma FindUnique(trades: seq<Trade>, k: nat)
    requires UniqueIds(trades) && k < |trades|
    ensures FindTrade(trades, trades[k].id) == Some(k)
  {
    assert forall j :: 0 <= j < k ==> trades[j].id != trades[k].id;
  }

  /** A trade record as placement and settlement leave it. */
  predicate Consistent(t: Trade) {
    && t.amount > 0.0
    && t.endTime == t.startTime + t.duration
    && t.entryPrice.Some?
    && (t.status == Active ==> t.result.None? && t.finalPrice.None?)
    && (t.status == Won ==> t.result == Some(t.amount * PayoutRatio) && t.finalPrice.Some?)
    && (t.status == Lost ==> t.result == Some(0.0) && t.finalPrice.Some?)
  }

  /** The ledger invariant: ids are unique and every record is consistent. */
  predicate LedgerOk(a: Account) {
    UniqueIds(a.trades) && forall i :: 0 <= i < |a.trades| ==> Consistent(a.trades[i])
  }

  /**
   * Money the trade has taken out of the balance: the stake while active or
   * lost, the stake minus the payout once won.
   */
  function Outflow(t: Trade): real {
    match t.status
    case Active => t.amount
    case Lost => t.amount
    case Won => t.amount - t.result.GetOr(0.0)
  }

  function TotalOutflow(trades: seq<Trade>): real {
    if trades == [] then 0.0 else Outflow(trades[0]) + TotalOutflow(trades[1..])
  }

  /** Balance plus everything the trades have taken out: constant across placement and settlement. */
  function Funds(a: Account): real
    requires a.balance.Some?
  {
    a.balance.value + TotalOutflow(a.trades)
  }

  lemma {:induction false} TotalOutflowUpdate(s: seq<Trade>, k: nat, t: Trade)
    requires k < |s|
    ensures TotalOutflow(s[k := t]) == TotalOutflow(s) - Outflow(s[k]) + Outflow(t)
    decreases |s|
  {
    if k > 0 {
      TotalOutflowUpdate(s[1..], k - 1, t);
      assert s[k := t][1..] == s[1..][k - 1 := t];
    }
  }

  /**
   * Placement keeps the ledger invariant and the funds when the clock has
   * moved past every existing id.
   */
  lemma PlacePreserves(a: Account, direction: Direction, stake: Option<real>, timeframe: string, nowMs: int, currentPrice: real)
    requires timeframe in Timeframes && LedgerOk(a)
    requires forall i :: 0 <= i < |a.trades| ==> a.trades[i].id < nowMs
    ensures var r := PlaceTrade(a, direction, stake, timeframe, nowMs, currentPrice);
      && LedgerOk(r.0)
      && (a.balance.Some? ==> r.0.balance.Some? && Funds(r.0) == Funds(a))
  {
    var r := PlaceTrade(a, direction, stake, timeframe, nowMs, currentPrice);
    if r.1 == Placed {
      assert r.0.trades[1..] == a.trades;
      assert forall j :: 1 <= j < |r.0.trades| ==> r.0.trades[j] == a.trades[j - 1];
    }
  }

  /** Settlement keeps the ledger invariant and the funds: a win's credit is exactly what the trade gives back. */
  lemma SettlePreserves(a: Account, id: int, price: real)
    requires LedgerOk(a)
    ensures var r := Settle(a, id, price);
      && LedgerOk(r)
      && (a.balance.Some? ==> r.balance.Some? && Funds(r) == Funds(a))
  {
    var r := Settle(a, id, price);
    var f := FindTrade(a.trades, id);
    if f.Some? && a.balance.Some? && a.trades[f.value].status == Active {
      var k := f.value;
      var t := a.trades[k];
      SettleActive(a, k, price);
      SettledBalances(t, price);
      TotalOutflowUpdate(a.trades, k, Settled(t, price));
      assert UniqueIds(r.trades) by {
        assert forall i :: 0 <= i < |r.trades| ==> r.trades[i].id == a.trades[i].id;
      }
      assert forall i :: 0 <= i < |r.trades| ==> Consistent(r.trades[i]) by {
        assert forall i :: 0 <= i < |r.trades| && i != k ==> r.trades[i] == a.trades[i];
      }
    }
  }

  /** A settled trade is consistent, and its outflow drops by exactly the payout it credits. */
  lemma SettledBalances(t: Trade, price: real)
    requires Consistent(t) && t.status == Active
    ensures var s := Settled(t, price);
      && Consistent(s)
      && Outflow(s) == t.amount - (if s.status == Won then s.result.value else 0.0)
  {
  }

  /** The fixed outcomes: up from 100 to 101 wins 1.9x, a tie loses, down from 100 to 99 wins. */
  lemma SettlementExamples(amount: real)
    requires amount > 0.0
    ensures Settled(Trade(1, amount, Higher, Active, 60000, 0, 60000, None, Some(100.0), None), 101.0).status == Won
    ensures Settled(Trade(1, amount, Higher, Active, 60000, 0, 60000, None, Some(100.0), None), 101.0).result == Some(amount * 1.9)
    ensures Settled(Trade(1, amount, Higher, Active, 60000, 0, 60000, None, Some(100.0), None), 100.0).status == Lost
    ensures Settled(Trade(1, amount, Lower, Active, 60000, 0, 60000, None, Some(100.0), None), 99.0).status == Won
    ensures PlaceTrade(Account([], Some(100.0)), Higher, Some(150.0), "1m", 0, 100.0) == (Account([], Some(100.0)), InsufficientBalance)
  {
  }
}
