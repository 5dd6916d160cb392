/**
 * Trades: one simulated position, the risk-tier holding intervals, and the
 * auto-sell sweep over a user's ordered trade list, as pure functions.
 * Times are integer milliseconds; money is `real`.
 */
module Trades {
  import opened Options

  /** Lifecycle of a trade; the server only ever writes 'open' and 'closed'. */
  datatype Status = Open | Closed

  datatype Trade = Trade(
    asset: string,
    riskLevel: string,
    bidAmount: real,
    buyPrice: real,
    sellPrice: Option<real>,  // undefined until the trade is closed
    status: Status,
    timestamp: int)           // creation time, in milliseconds

  /** The mock market quote every trade is opened against. */
  const MockAsset: string := "BTC"
  const MockBuyPrice: real := 100.0

  const Minute: nat := 60 * 1000

  /** The risk levels that have a holding interval. */
  const Tiers: set<string> := {"low", "medium", "high"}

  /**
   * Holding time of a risk level in milliseconds; a level outside the switch
   * has no interval (JavaScript returns `undefined`).
   */
  function SellInterval(riskLevel: string): (r: Option<nat>)
    ensures r.Some? <==> riskLevel in Tiers
    ensures r.Some? ==> Minute <= r.value <= 7 * Minute
  {
    if riskLevel == "low" then Some(1 * Minute)
    else if riskLevel == "medium" then Some(3 * Minute)
    else if riskLevel == "high" then Some(7 * Minute)
    else None
  }

  /** The three intervals, and that a higher risk level is held longer. */
  lemma SellIntervalValues()
    ensures SellInterval("low") == Some(60000)
    ensures SellInterval("medium") == Some(180000)
    ensures SellInterval("high") == Some(420000)
    ensures SellInterval("low").value < SellInterval("medium").value < SellInterval("high").value
  {
  }

  /**
   * The sweep's test for one trade: open, and its elapsed time has reached its
   * tier's interval. `elapsed >= undefined` is false in JavaScript, so a trade
   * with an unknown risk level is never due.
   */
  predicate IsDue(t: Trade, now: int)
  {
    t.status == Open &&
    match SellInterval(t.riskLevel)
    case None => false
    case Some(interval) => now - t.timestamp >= interval
  }

  /** A trade whose risk level has no interval is never auto-closed, whatever the time. */
  lemma UnknownTierNeverDue(t: Trade, now: int)
    requires t.riskLevel !in Tiers
    ensures !IsDue(t, now)
  {
  }

  /** Once due, a trade stays due as time moves on (while it is still open). */
  lemma DueStaysDue(t: Trade, now: int, later: int)
    requires IsDue(t, now) && now <= later
    ensures IsDue(t, later)
  {
  }

  /** Closing a trade: the status becomes closed and the sell price is recorded. */
  function Close(t: Trade, price: real): (r: Trade)
    ensures r.status == Closed && r.sellPrice == Some(price)
    ensures r.(status := t.status, sellPrice := t.sellPrice) == t
  {
    t.(status := Closed, sellPrice := Some(price))
  }

  /**
   * What closing credits: the stake bought `bidAmount / buyPrice` units at the
   * buy price, and they are sold at `sellPrice`.
   */
  function Payout(sellPrice: real, bidAmount: real, buyPrice: real): (r: real)
    requires buyPrice > 0.0
  {
    sellPrice * (bidAmount / buyPrice)
  }

  /**
   * The payout is the value of the units bought: it times the buy price is the
   * sell price times the stake; selling at the buy price returns the stake; a
   * non-negative stake sold at a non-negative price pays out a non-negative amount.
   */
  lemma PayoutValue(sellPrice: real, bidAmount: real, buyPrice: real)
    requires buyPrice > 0.0
    ensures Payout(sellPrice, bidAmount, buyPrice) * buyPrice == sellPrice * bidAmount
    ensures sellPrice == buyPrice ==> Payout(sellPrice, bidAmount, buyPrice) == bidAmount
    ensures sellPrice >= 0.0 && bidAmount >= 0.0 ==> Payout(sellPrice, bidAmount, buyPrice) >= 0.0
  {
  }

  /** Every trade can be paid out (no division by zero). */
  predicate Priced(ts: seq<Trade>)
  {
    forall i :: 0 <= i < |ts| ==> ts[i].buyPrice > 0.0
  }

  /** What the sweep does to one trade, given the sell price drawn for it. */
  function Step(t: Trade, now: int, price: real): (r: Trade)
  {
    if IsDue(t, now) then Close(t, price) else t
  }

  /** What the sweep credits for one trade. */
  function Credit(t: Trade, now: int, price: real): (r: real)
    requires t.buyPrice > 0.0
  {
    if IsDue(t, now) then Payout(price, t.bidAmount, t.buyPrice) else 0.0
  }

  /**
   * The trade list after one sweep at time `now`; `prices[i]` is the sell
   * price the sweep would draw for trade `i`. Defined from the back, so that
   * the first `i` trades are handled by the first `i` loop iterations.
   */
  function SweepTrades(ts: seq<Trade>, now: int, prices: seq<real>): (r: seq<Trade>)
    requires |prices| == |ts|
    ensures |r| == |ts|
    decreases |ts|
  {
    if |ts| == 0 then []
    else
      var n := |ts| - 1;
      SweepTrades(ts[..n], now, prices[..n]) + [Step(ts[n], now, prices[n])]
  }

  /** The total amount one sweep credits to the balance. */
  function SweepCredit(ts: seq<Trade>, now: int, prices: seq<real>): (r: real)
    requires |prices| == |ts| && Priced(ts)
    decreases |ts|
  {
    if |ts| == 0 then 0.0
    else
      var n := |ts| - 1;
      SweepCredit(ts[..n], now, prices[..n]) + Credit(ts[n], now, prices[n])
  }

  /** Some trade of the list is due at `now`. */
  predicate AnyDue(ts: seq<Trade>, now: int)
  {
    exists i :: 0 <= i < |ts| && IsDue(ts[i], now)
  }

  /** The sweep works trade by trade: it closes exactly the due trades. */
  lemma {:induction false} SweepTradesAt(ts: seq<Trade>, now: int, prices: seq<real>, i: int)
    requires |prices| == |ts| && 0 <= i < |ts|
    ensures SweepTrades(ts, now, prices)[i] ==
            if IsDue(ts[i], now) then Close(ts[i], prices[i]) else ts[i]
    decreases |ts|
  {
    var n := |ts| - 1;
    if i < n {
      SweepTradesAt(ts[..n], now, prices[..n], i);
    }
  }

  /**
   * `r` is `ts` part-way through a sweep: the first `i` trades have been
   * handled, the rest are untouched.
   */
  predicate SweptUpTo(ts: seq<Trade>, r: seq<Trade>, now: int, prices: seq<real>, i: int)
  {
    |r| == |ts| == |prices| && 0 <= i <= |ts| &&
    (forall k :: 0 <= k < i ==> r[k] == Step(ts[k], now, prices[k])) &&
    (forall k :: i <= k < |ts| ==> r[k] == ts[k])
  }

  /** Handling the next trade moves the sweep one trade on. */
  lemma SweptUpToNext(ts: seq<Trade>, r: seq<Trade>, now: int, prices: seq<real>, i: int)
    requires SweptUpTo(ts, r, now, prices, i) && i < |ts|
    ensures SweptUpTo(ts, r[i := Step(ts[i], now, prices[i])], now, prices, i + 1)
  {
  }

  /** A list swept all the way through is the sweep's result. */
  lemma SweptUpToEnd(ts: seq<Trade>, r: seq<Trade>, now: int, prices: seq<real>)
    requires SweptUpTo(ts, r, now, prices, |ts|)
    ensures r == SweepTrades(ts, now, prices)
  {
    forall k | 0 <= k < |r| ensures r[k] == SweepTrades(ts, now, prices)[k] {
      SweepTradesAt(ts, now, prices, k);
    }
  }

  /** Extending the handled prefix by one trade adds that trade's credit and due test. */
  lemma SweepPrefixStep(ts: seq<Trade>, now: int, prices: seq<real>, i: int)
    requires |prices| == |ts| && Priced(ts) && 0 <= i < |ts|
    ensures Priced(ts[..i]) && Priced(ts[..i + 1])
    ensures SweepCredit(ts[..i + 1], now, prices[..i + 1]) ==
            SweepCredit(ts[..i], now, prices[..i]) + Credit(ts[i], now, prices[i])
    ensures AnyDue(ts[..i + 1], now) <==> AnyDue(ts[..i], now) || IsDue(ts[i], now)
  {
    assert ts[..i + 1][..i] == ts[..i];
    assert prices[..i + 1][..i] == prices[..i];
    assert ts[..i + 1][i] == ts[i];
    forall k | 0 <= k < i ensures ts[..i + 1][k] == ts[..i][k] { }
  }

  /**
   * The sweep changes a trade only if it is due, never reopens or re-prices a
   * closed trade, and never changes anything but status and sell price.
   */
  lemma {:induction false} SweepOnlyClosesDue(ts: seq<Trade>, now: int, prices: seq<real>)
    requires |prices| == |ts|
    ensures var r := SweepTrades(ts, now, prices);
      forall i :: 0 <= i < |ts| ==>
        (r[i] != ts[i] <==> IsDue(ts[i], now)) &&
        (r[i] != ts[i] ==> r[i] == Close(ts[i], prices[i])) &&
        (ts[i].status == Closed ==> r[i] == ts[i]) &&
        (r[i].status == Open ==> r[i] == ts[i]) &&
        r[i].(status := ts[i].status, sellPrice := ts[i].sellPrice) == ts[i]
  {
    forall i | 0 <= i < |ts| {
      SweepTradesAt(ts, now, prices, i);
    }
  }

  /** After a sweep, no trade is due any more. */
  lemma {:induction false} SweepLeavesNoneDue(ts: seq<Trade>, now: int, prices: seq<real>)
    requires |prices| == |ts|
    ensures !AnyDue(SweepTrades(ts, now, prices), now)
  {
    var r := SweepTrades(ts, now, prices);
    forall i | 0 <= i < |r| ensures !IsDue(r[i], now) {
      SweepTradesAt(ts, now, prices, i);
    }
  }

  /** A sweep when nothing is due leaves the list as it was and credits nothing. */
  lemma {:induction false} SweepNoneDue(ts: seq<Trade>, now: int, prices: seq<real>)
    requires |prices| == |ts| && Priced(ts)
    requires !AnyDue(ts, now)
    ensures SweepTrades(ts, now, prices) == ts
    ensures SweepCredit(ts, now, prices) == 0.0
    decreases |ts|
  {
    if |ts| > 0 {
      var n := |ts| - 1;
      assert !IsDue(ts[n], now);
      assert !AnyDue(ts[..n], now) by {
        forall i | 0 <= i < n ensures !IsDue(ts[..n][i], now) {
          assert ts[..n][i] == ts[i];
        }
      }
      SweepNoneDue(ts[..n], now, prices[..n]);
      assert ts == ts[..n] + [ts[n]];
    }
  }

  /** The sweep changes the list exactly when some trade is due (the `updated` flag). */
  lemma {:induction false} SweepChangesIffDue(ts: seq<Trade>, now: int, prices: seq<real>)
    requires |prices| == |ts|
    ensures SweepTrades(ts, now, prices) != ts <==> AnyDue(ts, now)
  {
    var r := SweepTrades(ts, now, prices);
    SweepOnlyClosesDue(ts, now, prices);
    if AnyDue(ts, now) {
      var i :| 0 <= i < |ts| && IsDue(ts[i], now);
      assert r[i] != ts[i];
    }
  }

  /**
   * Idempotence: a second sweep at the same time closes nothing, credits
   * nothing, and whatever prices it would draw are never used.
   */
  lemma {:induction false} SweepIdempotent(ts: seq<Trade>, now: int, prices: seq<real>, again: seq<real>)
    requires |prices| == |ts| && |again| == |ts| && Priced(ts)
    ensures var r := SweepTrades(ts, now, prices);
      Priced(r) && SweepTrades(r, now, again) == r && SweepCredit(r, now, again) == 0.0
  {
    var r := SweepTrades(ts, now, prices);
    SweepOnlyClosesDue(ts, now, prices);
    SweepLeavesNoneDue(ts, now, prices);
    SweepNoneDue(r, now, again);
  }

  /**
   * The sum of the payouts of the trades that `before` has open and `after`
   * has closed, each paid at the sell price recorded in `after`.
   */
  function ClosedCredit(before: seq<Trade>, after: seq<Trade>): (r: real)
    requires |before| == |after| && Priced(after)
    decreases |before|
  {
    if |before| == 0 then 0.0
    else
      var n := |before| - 1;
      var t := after[n];
      ClosedCredit(before[..n], after[..n]) +
        if before[n].status == Open && t.status == Closed && t.sellPrice.Some?
        then Payout(t.sellPrice.value, t.bidAmount, t.buyPrice) else 0.0
  }

  /**
   * The balance change of a sweep is the sum of the payouts of the trades it
   * closed, each at the sell price it recorded.
   */
  lemma {:induction false} SweepCreditIsClosedCredit(ts: seq<Trade>, now: int, prices: seq<real>)
    requires |prices| == |ts| && Priced(ts)
    ensures Priced(SweepTrades(ts, now, prices))
    ensures SweepCredit(ts, now, prices) == ClosedCredit(ts, SweepTrades(ts, now, prices))
    decreases |ts|
  {
    if |ts| > 0 {
      var n := |ts| - 1;
      SweepCreditIsClosedCredit(ts[..n], now, prices[..n]);
      var r := SweepTrades(ts, now, prices);
      assert r[..n] == SweepTrades(ts[..n], now, prices[..n]);
      assert r[n] == Step(ts[n], now, prices[n]);
    }
  }

  /** The stake locked in the trades that are due at `now`. */
  function DueStake(ts: seq<Trade>, now: int): (r: real)
    decreases |ts|
  {
    if |ts| == 0 then 0.0
    else
      var n := |ts| - 1;
      DueStake(ts[..n], now) + if IsDue(ts[n], now) then ts[n].bidAmount else 0.0
  }

  /** A sell price the mock quote can produce: 100 plus or minus up to 10. */
  predicate MockPriceRange(p: real)
  {
    90.0 <= p < 110.0
  }

  /** Buying at 100 and selling at a mock price returns between 90% and 110% of the stake. */
  lemma PayoutBounds(p: real, bid: real)
    requires MockPriceRange(p) && bid >= 0.0
    ensures 9.0 / 10.0 * bid <= Payout(p, bid, MockBuyPrice) <= 11.0 / 10.0 * bid
  {
    var r := Payout(p, bid, MockBuyPrice);
    assert r == p * bid / 100.0;
    assert 90.0 * bid <= p * bid <= 110.0 * bid;
  }

  /**
   * With non-negative stakes bought at the mock price and mock sell prices, a
   * sweep credits between 90% and 110% of the stake it releases; in particular
   * it never lowers the balance.
   */
  lemma {:induction false} SweepCreditBounds(ts: seq<Trade>, now: int, prices: seq<real>)
    requires |prices| == |ts|
    requires forall i :: 0 <= i < |ts| ==> ts[i].buyPrice == MockBuyPrice && ts[i].bidAmount >= 0.0
    requires forall i :: 0 <= i < |prices| ==> MockPriceRange(prices[i])
    ensures Priced(ts)
    ensures 9.0 / 10.0 * DueStake(ts, now) <= SweepCredit(ts, now, prices) <= 11.0 / 10.0 * DueStake(ts, now)
    ensures 0.0 <= SweepCredit(ts, now, prices)
    decreases |ts|
  {
    if |ts| > 0 {
      var n := |ts| - 1;
      SweepCreditBounds(ts[..n], now, prices[..n]);
      if IsDue(ts[n], now) {
        PayoutBounds(prices[n], ts[n].bidAmount);
      }
    }
  }
}
