/**
 * The expiry sweep of the recent-trades panel: whenever the trade list
 * changes, every active trade whose end time has passed is reported, in list
 * order, to the settlement handler.
 */
module Expiry {
  import opened Ledger

  /** A trade the sweep reports at time `now` (milliseconds); the end instant itself counts. */
  predicate IsExpired(t: Trade, now: int) {
    t.status == Active && t.endTime <= now
  }

  /** `trades.filter(t => t.status === 'active' && t.endTime <= now)`. */
  function Expired(trades: seq<Trade>, now: int): (r: seq<Trade>)
    ensures |r| <= |trades|
    ensures forall t :: t in r <==> t in trades && IsExpired(t, now)
  {
    if trades == [] then []
    else (if IsExpired(trades[0], now) then [trades[0]] else []) + Expired(trades[1..], now)
  }

  /** The filter keeps list order: sweeping a concatenation sweeps each part in turn. */
  lemma {:induction false} ExpiredConcat(a: seq<Trade>, b: seq<Trade>, now: int)
    ensures Expired(a + b, now) == Expired(a, now) + Expired(b, now)
    decreases |a|
  {
    if a == [] {
      assert a + b == b;
    } else {
      assert (a + b)[1..] == a[1..] + b;
      ExpiredConcat(a[1..], b, now);
    }
  }

  /** The ids of the expired trades, one completion call each, in list order. */
  function ExpiredIds(trades: seq<Trade>, now: int): (ids: seq<int>)
    ensures |ids| == |Expired(trades, now)|
    ensures forall i :: 0 <= i < |ids| ==> ids[i] == Expired(trades, now)[i].id
  {
    var e := Expired(trades, now);
    seq(|e|, i requires 0 <= i < |e| => e[i].id)
  }

  /** An id is reported exactly when some trade carrying it is active and due. */
  lemma ExpiredIdsExactly(trades: seq<Trade>, now: int, id: int)
    ensures id in ExpiredIds(trades, now) <==>
      exists i :: 0 <= i < |trades| && IsExpired(trades[i], now) && trades[i].id == id
  {
    var ids := ExpiredIds(trades, now);
    var e := Expired(trades, now);
    if id in ids {
      var j :| 0 <= j < |ids| && ids[j] == id;
      assert e[j] in e;
      var i :| 0 <= i < |trades| && trades[i] == e[j];
      assert IsExpired(trades[i], now) && trades[i].id == id;
    }
    if exists i :: 0 <= i < |trades| && IsExpired(trades[i], now) && trades[i].id == id {
      var i :| 0 <= i < |trades| && IsExpired(trades[i], now) && trades[i].id == id;
      assert trades[i] in e;
      var j :| 0 <= j < |e| && e[j] == trades[i];
      assert ids[j] == id;
    }
  }

  /** The reported ids keep list order: a concatenation reports each part in turn. */
  lemma ExpiredIdsConcat(a: seq<Trade>, b: seq<Trade>, now: int)
    ensures ExpiredIds(a + b, now) == ExpiredIds(a, now) + ExpiredIds(b, now)
  {
    ExpiredConcat(a, b, now);
    var l, r := ExpiredIds(a, now), ExpiredIds(b, now);
    var ea := Expired(a, now);
    var ids := ExpiredIds(a + b, now);
    assert |ids| == |l + r|;
    forall k | 0 <= k < |ids|
      ensures ids[k] == (l + r)[k]
    {
      if k < |ea| {
        assert (ea + Expired(b, now))[k] == ea[k];
      } else {
        assert (ea + Expired(b, now))[k] == Expired(b, now)[k - |ea|];
      }
    }
  }

  /** Settles the given ids one after another at the same price. */
  function SettleAll(a: Account, ids: seq<int>, price: real): (r: Account)
    ensures |r.trades| == |a.trades|
    ensures forall i :: 0 <= i < |a.trades| ==> r.trades[i].id == a.trades[i].id
    ensures forall i :: 0 <= i < |a.trades| && a.trades[i].id !in ids ==> r.trades[i] == a.trades[i]
    ensures r.balance.Some? <==> a.balance.Some?
    decreases |ids|
  {
    if ids == [] then a else SettleAll(Settle(a, ids[0], price), ids[1..], price)
  }

  /** With unique ids and a signed-in user, every id in the list ends up settled. */
  lemma {:induction false} SettleAllSettles(a: Account, ids: seq<int>, price: real)
    requires UniqueIds(a.trades) && a.balance.Some?
    ensures var r := SettleAll(a, ids, price);
      forall i :: 0 <= i < |a.trades| && a.trades[i].id in ids ==> r.trades[i].status != Active
    decreases |ids|
  {
    if ids != [] {
      var a' := Settle(a, ids[0], price);
      assert UniqueIds(a'.trades);
      SettleAllSettles(a', ids[1..], price);
      var r := SettleAll(a, ids, price);
      forall i | 0 <= i < |a.trades| && a.trades[i].id in ids
        ensures r.trades[i].status != Active
      {
        if a.trades[i].id == ids[0] {
          FindUnique(a.trades, i);
          assert a'.trades[i].status != Active;
          if a.trades[i].id in ids[1..] {
          } else {
            assert r.trades[i] == a'.trades[i];
          }
        } else {
          assert a.trades[i].id in ids[1..];
        }
      }
    }
  }

  /** Settlement never reopens a trade: a settled trade stays as it is. */
  lemma {:induction false} SettleAllKeepsSettled(a: Account, ids: seq<int>, price: real, i: nat)
    requires i < |a.trades| && a.trades[i].status != Active
    requires UniqueIds(a.trades)
    ensures SettleAll(a, ids, price).trades[i] == a.trades[i]
    decreases |ids|
  {
    if ids != [] {
      var a' := Settle(a, ids[0], price);
      if a.trades[i].id == ids[0] {
        FindUnique(a.trades, i);
      }
      assert a'.trades[i] == a.trades[i];
      assert UniqueIds(a'.trades);
      SettleAllKeepsSettled(a', ids[1..], price, i);
    }
  }

  /** One sweep at time `now`: every expired trade is settled at `price`. */
  function Sweep(a: Account, now: int, price: real): (r: Account)
    ensures |r.trades| == |a.trades|
    ensures forall i :: 0 <= i < |a.trades| && !IsExpired(a.trades[i], now) && UniqueIds(a.trades) ==> r.trades[i] == a.trades[i]
  {
    var ids := ExpiredIds(a.trades, now);
    NotExpiredUntouched(a.trades, now);
    SettleAll(a, ids, price)
  }

  lemma NotExpiredUntouched(trades: seq<Trade>, now: int)
    ensures UniqueIds(trades) ==>
      forall i :: 0 <= i < |trades| && !IsExpired(trades[i], now) ==> trades[i].id !in ExpiredIds(trades, now)
  {
    if !UniqueIds(trades) {
      return;
    }
    var ids := ExpiredIds(trades, now);
    var e := Expired(trades, now);
    forall i | 0 <= i < |trades| && !IsExpired(trades[i], now)
      ensures trades[i].id !in ids
    {
      if trades[i].id in ids {
        var j :| 0 <= j < |ids| && ids[j] == trades[i].id;
        assert e[j] in e;
        var m :| 0 <= m < |trades| && trades[m] == e[j];
      }
    }
  }

  /**
   * After a sweep no active trade is past its end time, so a second sweep
   * finds nothing and changes nothing.
   */
  lemma SweepCompletes(a: Account, now: int, price: real)
    requires UniqueIds(a.trades) && a.balance.Some?
    ensures var r := Sweep(a, now, price);
      && (forall i :: 0 <= i < |r.trades| ==> !IsExpired(r.trades[i], now))
      && Expired(r.trades, now) == []
      && Sweep(r, now, price) == r
  {
    var ids := ExpiredIds(a.trades, now);
    var r := Sweep(a, now, price);
    SettleAllSettles(a, ids, price);
    forall i | 0 <= i < |r.trades| ensures !IsExpired(r.trades[i], now) {
      if IsExpired(a.trades[i], now) {
        var e := Expired(a.trades, now);
        assert a.trades[i] in e;
        var j :| 0 <= j < |e| && e[j] == a.trades[i];
        assert ids[j] == a.trades[i].id;
      }
    }
    NoneExpired(r.trades, now);
  }

  lemma {:induction false} NoneExpired(trades: seq<Trade>, now: int)
    requires forall i :: 0 <= i < |trades| ==> !IsExpired(trades[i], now)
    ensures Expired(trades, now) == [] && ExpiredIds(trades, now) == []
  {
    if trades != [] {
      NoneExpired(trades[1..], now);
    }
  }

  /** A trade ending at `end` is left alone one millisecond before and swept from `end` on. */
  lemma ExpiryBoundary(t: Trade, end: int)
    requires t.status == Active && t.endTime == end
    ensures !IsExpired(t, end - 1)
    ensures forall now :: now >= end ==> IsExpired(t, now)
  {
  }
}
