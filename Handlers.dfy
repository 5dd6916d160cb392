/**
 * Handlers: the user document as a mutable object, the bodies of the deposit
 * and start-trade request handlers, and one firing of the auto-sell timer.
 * Each method changes the objects in place, as the server does, and is proved
 * to follow the value-level transitions of the Users module.
 */
module Handlers {
  import opened Trades
  import opened Users

  /** A loaded user document; the handlers and the sweep update its fields in place. */
  class Account {
    var uid: string
    var email: string
    var virtualFunds: real
    var trades: seq<Trade>

    /** The document's current contents as a value. */
    ghost function View(): User
      reads this
    {
      User(uid, email, virtualFunds, trades)
    }

    ghost predicate Valid()
      reads this
      ensures Valid() ==> Priced(trades)
    {
      Users.Valid(View())
    }

    /** `new User({ uid, email: 'unknown' })`: a balance of 0 and no trades. */
    constructor (uid: string)
      ensures View() == NewUser(uid)
      ensures Valid() && virtualFunds == 0.0 && trades == []
    {
      this.uid := uid;
      this.email := UnknownEmail;
      this.virtualFunds := 0.0;
      this.trades := [];
    }

    /** `user.virtualFunds += amount`. */
    method Deposit(amount: real)
      requires Valid()
      modifies this`virtualFunds
      ensures Valid()
      ensures View() == Users.Deposit(old(View()), amount)
    {
      virtualFunds := virtualFunds + amount;
    }

    /** The funds check, debit and push of the start-trade handler. */
    method StartTrade(riskLevel: string, bidAmount: real, now: int) returns (reply: Reply)
      requires Valid()
      modifies this`virtualFunds, this`trades
      ensures Valid()
      ensures (View(), reply) == Users.StartTrade(old(View()), riskLevel, bidAmount, now)
    {
      if bidAmount > virtualFunds {
        return Error(InsufficientFunds);
      }
      virtualFunds := virtualFunds - bidAmount;
      trades := trades + [OpenedTrade(riskLevel, bidAmount, now)];
      reply := Ok;
    }

    /**
     * The inner loop of the auto-sell timer for this user: every open trade
     * whose interval has elapsed is closed at `prices[i]` and its payout is
     * credited. Returns whether anything changed, i.e. whether to save.
     */
    method AutoSell(now: int, prices: seq<real>) returns (updated: bool)
      requires Valid() && |prices| == |trades|
      modifies this`virtualFunds, this`trades
      ensures (View(), updated) == Users.Sweep(old(View()), now, prices)
      ensures Valid()
    {
      ghost var before := trades;
      updated := false;
      var i := 0;
      while i < |trades|
        invariant SweptUpTo(before, trades, now, prices, i)
        invariant uid == old(uid) && email == old(email)
        invariant virtualFunds == old(virtualFunds) + SweepCredit(before[..i], now, prices[..i])
        invariant updated == AnyDue(before[..i], now)
      {
        SweepPrefixStep(before, now, prices, i);
        ghost var handled := trades[i := Step(before[i], now, prices[i])];
        SweptUpToNext(before, trades, now, prices, i);
        var trade := trades[i];
        if trade.status == Open {
          var elapsed := now - trade.timestamp;
          var interval := SellInterval(trade.riskLevel);
          if interval.Some? && elapsed >= interval.value {
            var sellPrice := prices[i];
            trades := trades[i := Close(trade, sellPrice)];
            virtualFunds := virtualFunds + Payout(sellPrice, trade.bidAmount, trade.buyPrice);
            updated := true;
          }
        }
        assert trades == handled;
        i := i + 1;
      }
      SweptUpToEnd(before, trades, now, prices);
      assert before[..i] == before && prices[..i] == prices;
      SweepResult(old(View()), now, prices, View(), updated);
    }
  }

  /**
   * The deposit handler: `found` is the user the store returned for `userId`
   * (null when there is none), in which case a new user is created first.
   */
  method HandleDeposit(found: Account?, userId: string, amount: real) returns (user: Account)
    requires found != null ==> found.uid == userId && found.Valid()
    modifies found
    ensures found != null ==> user == found && user.View() == Users.Deposit(old(found.View()), amount)
    ensures found == null ==> fresh(user) && user.View() == Users.Deposit(NewUser(userId), amount)
    ensures user.Valid()
  {
    if found == null {
      user := new Account(userId);
    } else {
      user := found;
    }
    user.Deposit(amount);
  }

  /**
   * The start-trade handler: as HandleDeposit, a missing user is created,
   * then the trade is attempted. `saved` says whether the user is written
   * back: a rejected request returns before the save, so a user created for
   * it is not stored.
   */
  method HandleStartTrade(found: Account?, userId: string, riskLevel: string, bidAmount: real, now: int)
    returns (user: Account, reply: Reply, saved: bool)
    requires found != null ==> found.uid == userId && found.Valid()
    modifies found
    ensures found != null ==>
      user == found &&
      (user.View(), reply) == Users.StartTrade(old(found.View()), riskLevel, bidAmount, now)
    ensures found == null ==>
      fresh(user) &&
      (user.View(), reply) == Users.StartTrade(NewUser(userId), riskLevel, bidAmount, now)
    ensures saved <==> reply == Ok
    ensures user.Valid()
  {
    if found == null {
      user := new Account(userId);
    } else {
      user := found;
    }
    reply := user.StartTrade(riskLevel, bidAmount, now);
    saved := reply == Ok;
  }

  /** The users of a store listing are distinct documents. */
  ghost predicate Distinct(users: seq<Account>)
  {
    forall j, k :: 0 <= j < k < |users| ==> users[j] != users[k]
  }

  /**
   * One firing of the auto-sell timer over all users `User.find()` returned,
   * `prices[k][i]` being the sell price drawn for trade `i` of user `k`.
   * `saved[k]` is the `updated` flag that decides whether user `k` is saved.
   */
  method SweepAll(users: seq<Account>, now: int, prices: seq<seq<real>>) returns (saved: seq<bool>)
    requires Distinct(users) && |prices| == |users|
    requires forall k :: 0 <= k < |users| ==> users[k].Valid() && |prices[k]| == |users[k].trades|
    modifies set k | 0 <= k < |users| :: users[k]
    ensures |saved| == |users|
    ensures forall k :: 0 <= k < |users| ==>
      // the old view is valid (from the requires), so Sweep is defined on it
      Users.Valid(old(users[k].View())) &&
      users[k].Valid() && (users[k].View(), saved[k]) == Users.Sweep(old(users[k].View()), now, prices[k])
  {
    saved := [];
    var j := 0;
    while j < |users|
      invariant 0 <= j <= |users| && |saved| == j
      invariant forall k :: 0 <= k < j ==>
        users[k].Valid() && (users[k].View(), saved[k]) == Users.Sweep(old(users[k].View()), now, prices[k])
      invariant forall k :: j <= k < |users| ==> users[k].View() == old(users[k].View())
    {
      var updated := users[j].AutoSell(now, prices[j]);
      saved := saved + [updated];
      j := j + 1;
    }
  }
}
