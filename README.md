# Virtual trading simulator: account and trade ledger

This project models the ledger of the virtual trading server, `index.js`, in Dafny. A user document holds a
virtual balance (`virtualFunds`) and an ordered list of trades. Three things change it:

- the **deposit** handler. It creates a missing user lazily, with balance 0, e-mail `unknown` and no
  trades, then adds the amount.
- the **start-trade** handler. It rejects a bid larger than the balance with `Insufficient funds`;
  otherwise it debits the bid and appends one open trade on the mock quote (`BTC` at 100).
- the **auto-sell timer**. For every user and every trade it closes each open trade whose holding
  interval (`getSellInterval`: 1, 3 or 7 minutes for `low`, `medium`, `high`) has elapsed. It records
  the sell price, credits `sellPrice * (bidAmount / buyPrice)`, and saves the user only if something
  closed.

Layout:

- `Options.dfy`: `Option`, for the JavaScript fields and return values that may be `undefined`.
- `Trades.dfy` (pure):
  - the trade record and its status;
  - the tier intervals, the due test, closing and the payout;
  - one user's sweep as the functions `SweepTrades` (the new trade list) and `SweepCredit` (what it credits);
  - the lemmas about them.
- `Users.dfy` (pure): the user document as a value, and the deposit, start-trade and single-user sweep
  transitions as functions, with their properties.
- `Handlers.dfy` (imperative):
  - `Account`, a class whose methods change the balance and the trade list in place, as the handlers do;
  - the two request-handler bodies;
  - one timer firing, `SweepAll`, over the users the store listed.

  Each method's postcondition ties the new state to the matching `Users` function of the old state.
  `AutoSell` is the inner `for` loop, proved by loop invariants against `SweepTrades` and `SweepCredit`.

Abstractions:

- Times (`now`, `timestamp`) are integer milliseconds.
- Money is `real`.
- The sell prices are an input: `prices[i]` is the price the timer would draw for trade `i`. Only the
  prices of the trades that close are ever used.
- The store lookup (`User.findOne`) is an input: an `Account?` that is `null` when the uid is unknown.

Behaviour of `index.js` worth knowing when reading the model:

- Exit is purely time-based (index.js:115-118): an open trade closes once its tier's interval has elapsed.
- The funds check is only `bidAmount > virtualFunds` (index.js:74). Any bid not above the balance passes,
  zero and negative bids included; a negative one raises the balance.
- A negative deposit is applied as it is (index.js:58), so the balance can become negative.
- The sweep skips closed trades (index.js:115); nothing else guards against closing twice.

## Model

| member | source | states |
|---|---|---|
| `Trades.SellInterval` | index.js:95-101 | A risk level has an interval exactly when it is `low`, `medium` or `high`; every interval lies between 1 and 7 minutes |
| `Trades.SellIntervalValues` | index.js:95-101 | The intervals are 60000, 180000 and 420000 ms, rising with the risk level |
| `Trades.UnknownTierNeverDue` | index.js:116-118 | A trade whose risk level has no interval is never due, at any time (`elapsed >= undefined` is false) |
| `Trades.DueStaysDue` | index.js:115-118 | An open trade that is due stays due at every later time |
| `Trades.Close` | index.js:119-120 | Closing sets the status to closed and the sell price to the given price, and changes no other field |
| `Trades.PayoutValue` | index.js:121 | The credit times the buy price equals the sell price times the bid; selling at the buy price credits exactly the bid; a non-negative bid at a non-negative price credits a non-negative amount |
| `Trades.SweepTrades` | index.js:114-125 | The sweep never adds or removes trades: the result has the input's length |
| `Trades.SweepTradesAt` | index.js:114-124 | Trade `i` after the sweep is trade `i` closed at `prices[i]` if it was due, and trade `i` unchanged otherwise (no reordering) |
| `Trades.SweepOnlyClosesDue` | index.js:115-124 | A trade changes if and only if it was open and due; a closed trade is left as it is, so it is never reopened and its sell price is written once; only status and sell price ever change |
| `Trades.SweepLeavesNoneDue` | index.js:115-124 | After a sweep no trade is due at the same time |
| `Trades.SweepNoneDue` | index.js:113-126 | When no trade is due, the sweep leaves the list unchanged and credits nothing |
| `Trades.SweepChangesIffDue` | index.js:113-126 | The trade list changes if and only if some trade was due, which is what the `updated` flag records |
| `Trades.SweepIdempotent` | index.js:114-125 | A second sweep at the same time, whatever prices it draws, changes nothing and credits nothing |
| `Trades.SweepCreditIsClosedCredit` | index.js:119-121 | The sweep's balance change is the sum, over the trades it moved from open to closed, of each one's payout at the sell price it recorded |
| `Trades.PayoutBounds` | index.js:120-121 | A bid at the buy price 100, sold at a mock price in [90, 110), credits between 90% and 110% of the bid |
| `Trades.SweepCreditBounds` | index.js:119-121 | With non-negative bids at buy price 100 and mock prices, a sweep credits between 90% and 110% of the stake of the due trades, and never a negative amount |
| `Users.Valid` | index.js:76-85 | The stored-user invariant (every trade bought at 100, a sell price exactly on the closed ones) makes every payout defined |
| `Users.NewUser` | index.js:55-57 | A lazily created user has the given uid, e-mail `unknown`, balance 0 and no trades |
| `Users.Deposit` | index.js:58 | A deposit raises the balance by exactly the amount and changes nothing else |
| `Users.DepositsAdd` | index.js:58 | Two deposits equal one deposit of their sum |
| `Users.OpenedTrade` | index.js:76-85 | The appended trade is open, with no sell price, asset `BTC`, buy price 100, and the given risk level, bid and time |
| `Users.StartTrade` | index.js:74-85 | A bid above the balance gives `Insufficient funds` and leaves the user unchanged. Otherwise: the balance drops by exactly the bid and stays non-negative; exactly the new open trade is appended at the end; uid and e-mail are kept; the invariant is kept |
| `Users.StartKeepsEarlierTrades` | index.js:78-85 | A successful start keeps every earlier trade in place and unchanged, and adds one open trade after them |
| `Users.Sweep` | index.js:112-126 | One user's sweep keeps uid, e-mail and the number of trades, and keeps the invariant. The balance rises by the payouts of the trades it closed. The save flag is true exactly when the trade list changed |
| `Users.ClosedStaysClosed` | index.js:115 | A closed trade comes out of any sweep unchanged |
| `Users.SweepTwice` | index.js:112-126 | Sweeping a user twice at the same time equals sweeping once, and the second sweep does not ask for a save |
| `Users.SweepNeverLowersFunds` | index.js:119-121 | With non-negative bids and mock prices, a sweep raises the balance by between 90% and 110% of the released stake |
| `Users.StartThenSweepAtBuyPrice` | index.js:74-121 | Starting a trade debits its bid. A later sweep at a sell price of 100, once the interval has passed, closes it and restores the balance exactly, provided no older trade was due |
| `Users.LowRiskExample` | index.js:51-126 | Balance 1000, low-risk bid 100 at time 0: balance 900. A sweep at 59999 ms changes nothing. A sweep at 60000 ms at price 106 closes the trade and leaves the balance at 1006 |
| `Handlers.Account.constructor` | index.js:56 | A new user document is the lazily created user value |
| `Handlers.Account.Deposit` | index.js:58 | The in-place `+=` leaves exactly the deposit transition of the old state and keeps the invariant |
| `Handlers.Account.StartTrade` | index.js:74-85 | The in-place check, debit and push leave exactly the start-trade transition of the old state, with its reply |
| `Handlers.Account.AutoSell` | index.js:113-125 | The in-place loop over the trades leaves exactly the single-user sweep of the old state and returns its `updated` flag |
| `Handlers.HandleDeposit` | index.js:51-65 | Deposits into the found user, or into a freshly created one when the store has none |
| `Handlers.HandleStartTrade` | index.js:67-92 | Starts a trade on the found or a freshly created user; the user is saved exactly when the start succeeded |
| `Handlers.SweepAll` | index.js:107-131 | Every listed user (distinct documents) ends in its single-user sweep of its old state; `saved[k]` is user `k`'s `updated` flag |

## Left out

- Express setup, CORS, JSON parsing, routes, HTTP status codes and `app.listen`: request plumbing. The `GET /api/user/:id` route is plain lazy provisioning plus a save, the same as `Account.constructor`.
- Mongoose: the connection, schemas as persistence, `findOne`, `find` and `save`. They are database I/O. A lookup is an `Account?` input and a listing is a `seq<Account>` input. Where a save is conditional, the model returns it as a flag: `saved` of `HandleStartTrade` (no save after a rejection, index.js:74) and of `SweepAll` (index.js:126). `HandleDeposit` returns none, because the deposit handler always saves (index.js:59).
- `setInterval` and its 10-second period: timer machinery. One firing is `SweepAll` with its `now`.
- `getMockSellPrice` and `Math.random`: nondeterminism. The sell prices are an input, indexed by trade position. The bounds lemmas assume the [90, 110) range of that mock.
- `Date.now` and `new Date()`: wall-clock reads. They become integer millisecond parameters.
- Interleaving of request handlers with each other and with the sweep: the model is sequential. The read-modify-write of the balance across awaits is a lost-update hazard the model does not capture.
- IEEE-754 rounding in the payout, and JavaScript's coercion of non-numeric request values (e.g. a string `amount` concatenated by `+=`): money is `real`, and the inputs are numbers.
- Error logging in the catch blocks and failures of the store: I/O.
- `Distinct` in `SweepAll`: the store's listing is assumed to hold each user document once.
