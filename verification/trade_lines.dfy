/**
 * The per-trade entry lines drawn over the chart. The trading screen hands
 * the chart its active trades, and the chart keeps one line per active
 * trade id: lines of trades that are no longer active are removed, a line
 * is created for each newly active trade, and an existing line is left
 * alone.
 */
module TradeLines {
  import opened Options
  import opened Ledger

  /** What the chart is told about an active trade. */
  datatype ChartTrade = ChartTrade(id: int, direction: Direction, entryPrice: real)

  /** An entry line: its price level and its colour. */
  datatype Line = Line(price: real, colour: string)

  /** Teal for a trade on a rise, red for a trade on a fall. */
  function Colour(d: Direction): (c: string)
    ensures |c| == 7 && c[0] == '#'
    ensures d == Higher <==> c == "#26a69a"
    ensures d == Lower <==> c == "#ef5350"
  {
    match d
    case Higher => "#26a69a"
    case Lower => "#ef5350"
  }

  /** The line drawn for a trade: at its entry price, coloured by its direction. */
  function EntryLine(t: ChartTrade): (l: Line)
    ensures l.price == t.entryPrice && l.colour == Colour(t.direction)
  {
    Line(t.entryPrice, Colour(t.direction))
  }

  // ------------------------------------------------------------ chart input

  /** `entryPrice || currentPrice`: a missing or zero entry price falls back to the current price. */
  function EntryOrCurrent(entry: Option<real>, currentPrice: real): (p: real)
    ensures entry.Some? && entry.value != 0.0 ==> p == entry.value
    ensures entry.None? || entry.value == 0.0 ==> p == currentPrice
  {
    if entry.Some? && entry.value != 0.0 then entry.value else currentPrice
  }

  /** A line gives back the price level and the direction of its trade. */
  lemma EntryLineDetermines(a: ChartTrade, b: ChartTrade)
    ensures EntryLine(a) == EntryLine(b) <==> a.entryPrice == b.entryPrice && a.direction == b.direction
  {
  }

  /**
   * The line the chart draws for a trade, against the price its settlement
   * compares with (`entryPrice || 0`): the two agree and the line never moves
   * with the market when the entry price is set and non-zero; otherwise the
   * line follows the current price while settlement compares with 0.
   */
  lemma ViewLineAgainstSettlement(t: Trade, c1: real, c2: real)
    ensures t.entryPrice.Some? && t.entryPrice.value != 0.0 ==>
      EntryLine(View(t, c1)).price == t.entryPrice.GetOr(0.0) && EntryLine(View(t, c1)) == EntryLine(View(t, c2))
    ensures (t.entryPrice.None? || t.entryPrice.value == 0.0) ==>
      EntryLine(View(t, c1)).price == c1 && (c1 != 0.0 ==> EntryLine(View(t, c1)).price != t.entryPrice.GetOr(0.0))
    ensures EntryLine(View(t, c1)).colour == "#26a69a" <==> t.direction == Higher
  {
  }

  function View(t: Trade, currentPrice: real): ChartTrade {
    ChartTrade(t.id, t.direction, EntryOrCurrent(t.entryPrice, currentPrice))
  }

  /** The active trades, in list order, as the chart sees them. */
  function ChartTrades(trades: seq<Trade>, currentPrice: real): (r: seq<ChartTrade>)
    ensures |r| <= |trades|
    ensures forall k :: 0 <= k < |r| ==> r[k] in ViewsOfActive(trades, currentPrice)
    decreases |trades|
  {
    if trades == [] then []
    else if trades[0].status == Active then [View(trades[0], currentPrice)] + ChartTrades(trades[1..], currentPrice)
    else ChartTrades(trades[1..], currentPrice)
  }

  /** What the chart may show for a trade list: the view of some active trade. */
  ghost function ViewsOfActive(trades: seq<Trade>, currentPrice: real): set<ChartTrade> {
    set t | t in trades && t.status == Active :: View(t, currentPrice)
  }

  /** The chart sees exactly the active trades, each with its entry price or the current price. */
  lemma {:induction false} ChartTradesExactlyActive(trades: seq<Trade>, currentPrice: real, ct: ChartTrade)
    ensures ct in ChartTrades(trades, currentPrice) <==>
      exists t :: t in trades && t.status == Active && ct == View(t, currentPrice)
    decreases |trades|
  {
    if trades != [] {
      ChartTradesExactlyActive(trades[1..], currentPrice, ct);
      assert forall t :: t in trades <==> t == trades[0] || t in trades[1..];
    }
  }

  /** The views keep list order: a concatenation is viewed part by part. */
  lemma {:induction false} ChartTradesConcat(a: seq<Trade>, b: seq<Trade>, currentPrice: real)
    ensures ChartTrades(a + b, currentPrice) == ChartTrades(a, currentPrice) + ChartTrades(b, currentPrice)
    decreases |a|
  {
    if a == [] {
      assert a + b == b;
    } else {
      assert (a + b)[1..] == a[1..] + b;
      ChartTradesConcat(a[1..], b, currentPrice);
    }
  }

  /** One trade is viewed as itself when active and not at all otherwise. */
  lemma ChartTradesSingle(t: Trade, currentPrice: real)
    ensures t.status == Active ==> ChartTrades([t], currentPrice) == [View(t, currentPrice)]
    ensures t.status != Active ==> ChartTrades([t], currentPrice) == []
  {
    assert [t][1..] == [];
  }

  // ------------------------------------------------------------ reconciling

  /** The ids of the active trades. */
  function Ids(active: seq<ChartTrade>): set<int> {
    set i | 0 <= i < |active| :: active[i].id
  }

  /** Position `k` holds the first active trade with the given id. */
  predicate FirstWithId(active: seq<ChartTrade>, id: int, k: int) {
    0 <= k < |active| && active[k].id == id && forall j :: 0 <= j < k ==> active[j].id != id
  }

  /** The first active trade with the given id, if there is one. */
  function Lookup(active: seq<ChartTrade>, id: int): (r: Option<ChartTrade>)
    ensures r.Some? <==> id in Ids(active)
    ensures r.Some? ==> r.value.id == id && r.value in active
    ensures r.Some? ==> exists k :: FirstWithId(active, id, k) && active[k] == r.value
    decreases |active|
  {
    if active == [] then None
    else if active[0].id == id then
      assert FirstWithId(active, id, 0);
      Some(active[0])
    else
      var r := Lookup(active[1..], id);
      assert Ids(active) == {active[0].id} + Ids(active[1..]) by { IdsCons(active); }
      assert r.Some? ==> exists k :: FirstWithId(active, id, k) && active[k] == r.value by {
        if r.Some? {
          var k :| FirstWithId(active[1..], id, k) && active[1..][k] == r.value;
          assert active[k + 1] == r.value;
          forall j | 0 <= j < k + 1 ensures active[j].id != id {
            if j > 0 { assert active[j] == active[1..][j - 1]; }
          }
          assert FirstWithId(active, id, k + 1);
        }
      }
      r
  }

  lemma IdsCons(active: seq<ChartTrade>)
    requires active != []
    ensures Ids(active) == {active[0].id} + Ids(active[1..])
  {
    var tail := active[1..];
    forall id | id in Ids(active) ensures id in {active[0].id} + Ids(tail) {
      var i :| 0 <= i < |active| && active[i].id == id;
      if i > 0 {
        assert tail[i - 1].id == id;
      }
    }
    forall id | id in Ids(tail) ensures id in Ids(active) {
      var i :| 0 <= i < |tail| && tail[i].id == id;
      assert active[i + 1].id == id;
    }
  }

  /** Drop every line whose trade is no longer active. */
  function RemoveInactive(lines: map<int, Line>, ids: set<int>): (r: map<int, Line>)
    ensures r.Keys == lines.Keys * ids
    ensures forall id :: id in r ==> r[id] == lines[id]
  {
    map id | id in lines.Keys && id in ids :: lines[id]
  }

  /**
   * Removal in two passes is removal once with the ids active in both; in
   * particular a second pass with the same ids removes nothing more, and a
   * pass while every line's trade is still active removes nothing.
   */
  lemma RemoveInactiveCompose(lines: map<int, Line>, a: set<int>, b: set<int>)
    ensures RemoveInactive(RemoveInactive(lines, a), b) == RemoveInactive(lines, a * b)
    ensures RemoveInactive(RemoveInactive(lines, a), a) == RemoveInactive(lines, a)
    ensures lines.Keys <= a ==> RemoveInactive(lines, a) == lines
  {
    assert a * a == a;
  }

  /** Visit the active trades in order, creating a line for each id that has none yet. */
  function AddMissing(lines: map<int, Line>, active: seq<ChartTrade>): (r: map<int, Line>)
    ensures r.Keys == lines.Keys + Ids(active)
    ensures forall id :: id in lines ==> r[id] == lines[id]
    decreases |active|
  {
    if active == [] then lines
    else
      var t := active[0];
      IdsCons(active);
      AddMissing(if t.id in lines then lines else lines[t.id := EntryLine(t)], active[1..])
  }

  /** A line that was not there before is the one for the first trade with its id. */
  lemma {:induction false} AddMissingSpec(lines: map<int, Line>, active: seq<ChartTrade>)
    ensures var r := AddMissing(lines, active);
      forall id :: id in r && id !in lines ==> r[id] == EntryLine(Lookup(active, id).value)
    decreases |active|
  {
    if active != [] {
      var t := active[0];
      var next := if t.id in lines then lines else lines[t.id := EntryLine(t)];
      AddMissingSpec(next, active[1..]);
      IdsCons(active);
    }
  }

  /**
   * One pass of the chart's effect: remove the lines of inactive trades, then
   * add the missing ones. Afterwards there is a line for precisely the active
   * trade ids, and an existing line is never redrawn.
   */
  function Sync(lines: map<int, Line>, active: seq<ChartTrade>): (r: map<int, Line>)
    ensures r.Keys == Ids(active)
    ensures forall id :: id in lines && id in Ids(active) ==> r[id] == lines[id]
  {
    AddMissing(RemoveInactive(lines, Ids(active)), active)
  }

  /**
   * The lines after a pass, described without the passes: one per active
   * id, the old line where there was one, else the line of the first trade
   * with that id.
   */
  function Intended(lines: map<int, Line>, active: seq<ChartTrade>): map<int, Line> {
    map id | id in Ids(active) ::
      if id in lines then lines[id] else EntryLine(Lookup(active, id).value)
  }

  /** A pass yields exactly the intended lines. */
  lemma SyncIsIntended(lines: map<int, Line>, active: seq<ChartTrade>)
    ensures Sync(lines, active) == Intended(lines, active)
  {
    var kept := RemoveInactive(lines, Ids(active));
    AddMissingSpec(kept, active);
  }

  /** Running the effect again with the same trades changes nothing. */
  lemma SyncIdempotent(lines: map<int, Line>, active: seq<ChartTrade>)
    ensures Sync(Sync(lines, active), active) == Sync(lines, active)
  {
    var r := Sync(lines, active);
    SyncIsIntended(lines, active);
    SyncIsIntended(r, active);
  }
}
