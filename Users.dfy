/**
 * Users: a user document (balance and ordered trade list) as a value, and the
 * three ledger transitions on it -- deposit, start trade, and the auto-sell
 * sweep of one user -- as functions. The class in Handlers mutates a user in
 * place and is proved to follow these functions.
 */
module Users {
  import opened Options
  import opened Trades

  datatype User = User(uid: string, email: string, virtualFunds: real, trades: seq<Trade>)

  /** The e-mail placeholder of a user created on first reference. */
  const UnknownEmail: string := "unknown"

  /** The error reported when a bid exceeds the balance. */
  const InsufficientFunds: string := "Insufficient funds"

  /** The answer of the start-trade request. */
  datatype Reply = Ok | Error(message: string)

  /**
   * A stored trade: bought at the mock price, and it carries a sell price
   * exactly when it is closed.
   */
  predicate WellFormed(t: Trade)
  {
    t.buyPrice == MockBuyPrice && (t.status == Closed <==> t.sellPrice.Some?)
  }

  /** The invariant of every stored user: all of its trades are well formed. */
  predicate Valid(u: User)
    ensures Valid(u) ==> Priced(u.trades)
  {
    forall i :: 0 <= i < |u.trades| ==> WellFormed(u.trades[i])
  }

  /** A user created lazily when a request names an unknown uid (schema defaults). */
  function NewUser(uid: string): (u: User)
    ensures Valid(u) && u.uid == uid && u.email == UnknownEmail
    ensures u.virtualFunds == 0.0 && u.trades == []
  {
    User(uid, UnknownEmail, 0.0, [])
  }

  /** Deposit: the balance rises by exactly `amount` and nothing else changes. */
  function Deposit(u: User, amount: real): (r: User)
    ensures r.virtualFunds - u.virtualFunds == amount
    ensures r.(virtualFunds := u.virtualFunds) == u
    ensures Valid(u) ==> Valid(r)
  {
    u.(virtualFunds := u.virtualFunds + amount)
  }

  /** Two deposits amount to one deposit of their sum. */
  lemma DepositsAdd(u: User, a: real, b: real)
    ensures Deposit(Deposit(u, a), b) == Deposit(u, a + b)
  {
  }

  /** The trade a successful start appends. */
  function OpenedTrade(riskLevel: string, bidAmount: real, now: int): (t: Trade)
    ensures WellFormed(t) && t.status == Open && t.sellPrice == None
    ensures t.asset == MockAsset && t.buyPrice == MockBuyPrice
    ensures t.riskLevel == riskLevel && t.bidAmount == bidAmount && t.timestamp == now
  {
    Trade(MockAsset, riskLevel, bidAmount, MockBuyPrice, None, Open, now)
  }

  /**
   * Start trade: rejected with "Insufficient funds" when the bid exceeds the
   * balance; otherwise the bid is debited and one open trade is appended.
   * Negative and zero bids are not rejected.
   */
  function StartTrade(u: User, riskLevel: string, bidAmount: real, now: int): (r: (User, Reply))
    ensures bidAmount > u.virtualFunds ==> r == (u, Error(InsufficientFunds))
    ensures bidAmount <= u.virtualFunds ==>
      r.1 == Ok &&
      r.0.virtualFunds == u.virtualFunds - bidAmount &&
      r.0.virtualFunds >= 0.0 &&
      r.0.trades == u.trades + [OpenedTrade(riskLevel, bidAmount, now)] &&
      r.0.uid == u.uid && r.0.email == u.email
    ensures Valid(u) ==> Valid(r.0)
  {
    if bidAmount > u.virtualFunds then (u, Error(InsufficientFunds))
    else
      var t := OpenedTrade(riskLevel, bidAmount, now);
      (u.(virtualFunds := u.virtualFunds - bidAmount, trades := u.trades + [t]), Ok)
  }

  /** A successful start keeps every earlier trade where it was, unchanged. */
  lemma StartKeepsEarlierTrades(u: User, riskLevel: string, bidAmount: real, now: int)
    requires bidAmount <= u.virtualFunds
    ensures var r := StartTrade(u, riskLevel, bidAmount, now).0;
      |r.trades| == |u.trades| + 1 &&
      (forall i :: 0 <= i < |u.trades| ==> r.trades[i] == u.trades[i]) &&
      r.trades[|u.trades|].status == Open
  {
  }

  /**
   * One user's part of the auto-sell sweep at time `now`, `prices[i]` being
   * the sell price drawn for trade `i`; the flag says whether the user must be
   * saved. The flag is set exactly when the trade list changed, and the
   * balance rises by the payouts of the trades that were closed.
   */
  function Sweep(u: User, now: int, prices: seq<real>): (r: (User, bool))
    requires |prices| == |u.trades| && Priced(u.trades)
    ensures r.0.uid == u.uid && r.0.email == u.email && |r.0.trades| == |u.trades|
    ensures Priced(r.0.trades)
    ensures r.0.virtualFunds == u.virtualFunds + ClosedCredit(u.trades, r.0.trades)
    ensures r.1 <==> r.0.trades != u.trades
    ensures Valid(u) ==> Valid(r.0)
  {
    SweepCreditIsClosedCredit(u.trades, now, prices);
    SweepChangesIffDue(u.trades, now, prices);
    SweepOnlyClosesDue(u.trades, now, prices);
    var ts := SweepTrades(u.trades, now, prices);
    (u.(virtualFunds := u.virtualFunds + SweepCredit(u.trades, now, prices), trades := ts),
     AnyDue(u.trades, now))
  }

  /** The sweep's result, given by the sweep functions on the trade list. */
  lemma SweepResult(u: User, now: int, prices: seq<real>, v: User, flag: bool)
    requires |prices| == |u.trades| && Priced(u.trades)
    requires v.uid == u.uid && v.email == u.email
    requires v.trades == SweepTrades(u.trades, now, prices)
    requires v.virtualFunds == u.virtualFunds + SweepCredit(u.trades, now, prices)
    requires flag == AnyDue(u.trades, now)
    ensures (v, flag) == Sweep(u, now, prices)
  {
  }

  /** A closed trade stays closed, with the same sell price, through any later sweep. */
  lemma ClosedStaysClosed(u: User, now: int, prices: seq<real>, i: int)
    requires |prices| == |u.trades| && Priced(u.trades)
    requires 0 <= i < |u.trades| && u.trades[i].status == Closed
    ensures Sweep(u, now, prices).0.trades[i] == u.trades[i]
  {
    SweepTradesAt(u.trades, now, prices, i);
  }

  /** Sweeping twice at the same time is the same as sweeping once, and reports no update. */
  lemma SweepTwice(u: User, now: int, prices: seq<real>, again: seq<real>)
    requires |prices| == |u.trades| && |again| == |u.trades| && Priced(u.trades)
    ensures var once := Sweep(u, now, prices).0;
      Sweep(once, now, again) == (once, false)
  {
    SweepIdempotent(u.trades, now, prices, again);
  }

  /**
   * With non-negative stakes and mock sell prices, a sweep never lowers the
   * balance, and raises it by 90% to 110% of the stake it releases.
   */
  lemma SweepNeverLowersFunds(u: User, now: int, prices: seq<real>)
    requires Valid(u) && |prices| == |u.trades|
    requires forall i :: 0 <= i < |u.trades| ==> u.trades[i].bidAmount >= 0.0
    requires forall i :: 0 <= i < |prices| ==> MockPriceRange(prices[i])
    ensures Priced(u.trades)
    ensures var gain := Sweep(u, now, prices).0.virtualFunds - u.virtualFunds;
      0.0 <= gain && 9.0 / 10.0 * DueStake(u.trades, now) <= gain <= 11.0 / 10.0 * DueStake(u.trades, now)
  {
    SweepCreditBounds(u.trades, now, prices);
  }

  /**
   * The life of one trade: starting it and, once its interval has passed,
   * sweeping at a sell price equal to the buy price closes it and gives the
   * balance back exactly, provided no older trade was due.
   */
  lemma StartThenSweepAtBuyPrice(u: User, riskLevel: string, bidAmount: real, now: int,
                                 later: int, prices: seq<real>)
    requires Valid(u) && bidAmount <= u.virtualFunds
    requires riskLevel in Tiers && later - now >= SellInterval(riskLevel).value
    requires !AnyDue(u.trades, later)
    requires |prices| == |u.trades| + 1 && prices[|u.trades|] == MockBuyPrice
    ensures var started := StartTrade(u, riskLevel, bidAmount, now).0;
      Priced(started.trades) &&
      var swept := Sweep(started, later, prices);
      swept.1 &&
      swept.0.virtualFunds == u.virtualFunds &&
      swept.0.trades == u.trades + [Close(OpenedTrade(riskLevel, bidAmount, now), MockBuyPrice)]
  {
    var n := |u.trades|;
    var t := OpenedTrade(riskLevel, bidAmount, now);
    var ts := u.trades + [t];
    assert ts[..n] == u.trades;
    SweepNoneDue(u.trades, later, prices[..n]);
    assert IsDue(t, later);
    assert SweepTrades(ts, later, prices) == u.trades + [Close(t, MockBuyPrice)];
    assert SweepCredit(ts, later, prices) == bidAmount;
    assert AnyDue(ts, later) by { assert IsDue(ts[n], later); }
  }

  /**
   * A worked example: a new user deposits 1000 and opens a low-risk bid of 100
   * at time 0 (balance 900). A sweep at 59999 ms closes nothing. A sweep at
   * 60000 ms when the mock price is 106 closes the trade and the balance is 1006.
   */
  lemma LowRiskExample()
    ensures var u := StartTrade(Deposit(NewUser("u1"), 1000.0), "low", 100.0, 0).0;
      u.virtualFunds == 900.0 &&
      Sweep(u, 59999, [106.0]) == (u, false) &&
      var s := Sweep(u, 60000, [106.0]);
      s.1 && s.0.virtualFunds == 1006.0 &&
      s.0.trades[0].status == Closed && s.0.trades[0].sellPrice == Some(106.0)
  {
  }
}
