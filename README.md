# Trading journal backend: a Dafny model of its domain logic

The trading journal backend (`index.js`, an Express service over PostgreSQL) lets a user
register and log in, record trades, and read back analytics about them. Most of it hands
requests through to SQL. This project models the part that holds actual rules:

- **Profit/loss rule** (`trades.dfy`, module `Trades`). The add-trade and update-trade
  handlers derive `profit_loss` from `trade_type`, `entry_price`, `exit_price` and
  `lot_size`. `"Buy"` books (exit − entry) × 100 × lot and `"Sell"` books (entry − exit) × 100 × lot.
  Any other string books 0 and raises no error. A client's trade columns are the datatype
  `TradeFields`, which has no profit/loss column, because neither handler reads one from
  the request.
- **Aggregate queries** (`analytics.dfy`, module `Analytics`). These are the weekly summary,
  the dashboard statistics, the monthly summary and the best/worst trade. Each is a pure
  function over the rows of the trades table, given as a sequence. `Select` is a WHERE
  clause. `Count` is `SUM(CASE WHEN … THEN 1 ELSE 0 END)`. `SqlSum` is `SUM(profit_loss)`,
  which gives NULL (`None`) when no row is aggregated. `Months` is `GROUP BY month ORDER BY
  month DESC`. `Best` and `Worst` are `ORDER BY profit_loss DESC/ASC LIMIT 1`.
- **Equity curve** (`equity.dfy`, module `Equity`). It keeps a running total, seeded at 0,
  over the rows the equity query returns. It emits one `(date, equity)` point per row. It is
  a method with a loop, proved against the recursive sum `TotalProfitLoss` over prefixes.
- **Account and trade handlers** (`handlers.dfy`, module `Handlers`). A `Store` class holds
  the users table keyed by email and the trades table keyed by id. Its methods are register,
  login, add trade, full-replace update by id and delete by id. The database's generated ids
  come from two counters. `Store.Valid()` states the tables' invariant, and every method
  preserves it. The invariant includes "every stored profit/loss is the one derived from
  the trade's own columns".
- **Password hashing** (`credentials.dfy`, module `Credentials`). This is an idealised salted
  hash. The random salt is a parameter. As with bcrypt, only the first 72 bytes of a password
  are hashed, so a digest matches exactly the passwords that agree with the hashed one on
  those bytes. A longer password with anything appended therefore logs in too.

Common wrappers (`Option`, `Result`) are in `wrappers.dfy`.

Modelling choices:

- Prices, lot sizes and profit/loss are `real`, and dates are integer day numbers.
- The weekly window is `date >= today - 7`, with `today` a parameter. The SQL has no upper
  bound, so a trade dated in the future is counted.
- The month of a date (`DATE_TRUNC('month', …)`) is a given function `monthOf`. Rows are
  ordered by its value.
- A request field is `Option<string>`. The register handler rejects a field (`!field`) that
  is absent or is the empty string. `Given` holds for every other field.

Behaviour of the code worth noting:

- With no rows, `SUM(CASE …)` is NULL. So the wins and losses of both the weekly summary and
  the dashboard are NULL, not 0. Only the dashboard's `net_profit` is coalesced to 0
  (index.js:275). The weekly `net_profit` stays NULL (index.js:247).
- Login answers an unknown email ("User not found") differently from a wrong password
  ("Invalid password"). A missing password makes the hash comparison throw, which the
  handler answers with a server error (`LoginFailed`).
- Best and worst follow SQL. When profit/losses tie, SQL does not say which row `LIMIT 1`
  returns, so the contracts say only that the row returned is a maximum (minimum). The
  functions themselves pick the first one.

## Model

| member | source | states |
|---|---|---|
| `Trades.SellIsNegatedBuy` | index.js:115-121 | The same prices and lot booked as "Sell" give exactly the negation of "Buy". |
| `Trades.UnknownDirectionBooksZero` | index.js:115-121 | Any trade_type other than "Buy" or "Sell", including "buy", books a profit/loss of 0. |
| `Trades.ProfitableIffPriceMovedTheRightWay` | index.js:117-120 | For a positive lot, a "Buy" is profitable exactly when the exit price is above the entry price, and a "Sell" exactly when it is below. |
| `Trades.BuyExample` | index.js:117-118 | A "Buy" of one lot from 1.1000 to 1.1050 books 0.5. |
| `Credentials.Truncated` | index.js:46 | bcrypt hashes a prefix of the password of at most 72 bytes: the whole password when it is no longer, exactly 72 bytes otherwise. |
| `Credentials.Hash` | index.js:46 | The digest made from a password matches that password, and records cost factor 10. |
| `Credentials.OnlyTheHashedPasswordMatches` | index.js:79 | A password matches a digest exactly when its first 72 bytes equal those of the hashed password. |
| `Credentials.LongPasswordsIgnoreTheirTail` | index.js:79 | A password of 72 bytes or more, with anything appended, still matches its digest. |
| `Credentials.ShortPasswordsMatchExactly` | index.js:79 | A digest of a password shorter than 72 bytes matches only that password. |
| `Analytics.Select` | index.js:249-250 | A WHERE clause keeps exactly the rows that satisfy it and never adds rows. |
| `Analytics.SqlSum` | index.js:247 | SUM(profit_loss) is NULL exactly when there are no rows. |
| `Analytics.CountIsNumberOfMatchingRows` | index.js:245-246 | The conditional sum equals the number of row positions that satisfy its condition. |
| `Analytics.SelectSizeIsCount` | index.js:244-246 | COUNT(*) of the rows a condition selects equals the conditional sum for that condition. |
| `Analytics.TotalIgnoresOrder` | index.js:247 | SUM(profit_loss) is the same for any ordering of the same rows. |
| `Analytics.SelectNothing` | index.js:249 | A filter that no row satisfies yields no rows. |
| `Analytics.StricterSelectsFewer` | index.js:249-250 | Adding a condition to the WHERE clause never selects more rows. |
| `Analytics.SelectSplits` | index.js:362 | Splitting rows on a condition and its negation loses no row and no profit/loss. |
| `Analytics.WinsAndLossesPartition` | index.js:245-246 | wins + losses ≤ total_trades. Equality holds exactly when no trade has profit/loss 0, so break-even trades count as neither. |
| `Analytics.SummaryMeaning` | index.js:243-247 | A non-empty summary has total_trades = number of rows, wins = rows with P/L > 0, losses = rows with P/L < 0, and net_profit = sum of P/L. |
| `Analytics.NoTradesSummaries` | index.js:243-277 | With no trades for the user, the dashboard reports (0, NULL, NULL, 0) and the weekly summary reports (0, NULL, NULL, NULL). |
| `Analytics.DashboardNetProfitIsTotal` | index.js:275 | The dashboard's net_profit is never NULL and equals the sum over the user's trades. |
| `Analytics.WeeklyWithinDashboard` | index.js:243-250 | The weekly summary never counts more trades than the dashboard. |
| `Analytics.SummaryExample` | index.js:243-247 | Profit/losses 10, −5, 0 and 20 give 4 trades, 2 wins, 1 loss and net profit 25. |
| `Analytics.LatestMonthIndex` | index.js:363 | It returns a position whose month is not before the month of any row. |
| `Analytics.SplitAtLatestMonth` | index.js:357-363 | The latest month's group is non-empty. All other rows fall in earlier months, and the split loses no row and no profit/loss. |
| `Analytics.PrependLatestMonth` | index.js:363 | Putting a row for a month later than all others in front of strictly descending rows keeps them strictly descending. |
| `Analytics.Months` | index.js:356-363 | There is one row per month in which some trade falls, and no other months. Months strictly decrease, so the latest comes first and none repeats. |
| `Analytics.MonthRowIsGroup` | index.js:357-362 | Each monthly row's total_trades (at least 1) and net_profit are the count and sum over exactly the trades of its month. |
| `Analytics.MonthRowsAddUp` | index.js:358-359 | The monthly rows' total_trades add up to the number of trades, and their net_profit to the total profit/loss. |
| `Analytics.Best` | index.js:326-329 | The best row is absent exactly when there are no rows. Otherwise it is one of the rows, with profit/loss ≥ every row's. |
| `Analytics.Worst` | index.js:331-334 | The worst row is absent exactly when there are no rows. Otherwise it is one of the rows, with profit/loss ≤ every row's. |
| `Analytics.BestAndWorst` | index.js:326-339 | Best and worst are both trades of the requested user. |
| `Analytics.BestNotBelowWorst` | index.js:326-339 | Both are absent exactly when the user has no trades. Otherwise the worst's profit/loss ≤ the best's. |
| `Analytics.BestWorstExample` | index.js:326-339 | Profit/losses 10, −5 and 20 give best 20 and worst −5. |
| `Equity.EquityCurve` | index.js:306-310 | The curve has one point per row. Point i carries row i's date and the profit/loss summed over rows 0..i, so empty input gives an empty curve. |
| `Equity.EquityStep` | index.js:308 | Each point adds exactly its own trade's profit/loss to the previous equity. |
| `Equity.PrefixTotalsGrow` | index.js:306-310 | With no negative profit/loss, the sum over a longer prefix is never smaller. |
| `Equity.EquityNonDecreasing` | index.js:306-310 | With no negative profit/loss, equity never decreases along the curve. |
| `Equity.FinalEquityIsNetProfit` | index.js:298-310 | The last point of a user's curve equals the dashboard's net_profit for that user, whatever order the equity query returned the user's rows in. |
| `Handlers.Store.Register` | index.js:31-54 | A missing or empty field is rejected first, then an already-registered email; both leave the table unchanged. Otherwise exactly one user is added under a fresh id, with the returned name and email and the hash of the password. |
| `Handlers.Store.Login` | index.js:68-90 | Unknown email: "User not found". Missing password: server error. Wrong password: "Invalid password". Success exactly when the email exists and the password matches, returning that user's id, name and email. |
| `Handlers.Store.AddTrade` | index.js:102-143 | It stores the client's columns under a fresh id, with the profit/loss derived by the rule, and changes nothing else. |
| `Handlers.Store.UpdateTrade` | index.js:382-423 | It replaces all columns of that id except id and owner, recomputing profit/loss with the add-trade rule. Other rows and the users table are unchanged. An unknown id changes nothing and returns no row. |
| `Handlers.Store.DeleteTrade` | index.js:176-180 | It removes exactly that id, if present, and nothing else. |
| `Handlers.RegisterTwice` | index.js:36-52 | Registering the same email again is rejected with "User already exists". It adds no second user and leaves the first user's record (id, name, email and hash under the first salt) as the first registration stored it. |
| `Handlers.RegisterThenLogin` | index.js:46-90 | After registering, logging in with that password returns the registered id, name and email. A password that differs from it within the first 72 bytes is rejected. |
| `Handlers.AddThenDelete` | index.js:123-141 | Adding a trade (the insert) and then deleting it by its returned id (the delete at index.js:178) leaves both tables as they were. |

## Left out

- Express routing, CORS, JSON body parsing, environment loading, the listener, the `GET /`
  connectivity probe and all logging (index.js:1-22, 436-440). These are framework plumbing.
- The `pg` pool and the SQL driver. The tables are Dafny maps in `Handlers.Store`, and the
  query results are sequences of rows. Failures of the store are not modelled: a broken
  connection, a violated constraint such as a foreign key to a missing user, or a
  non-numeric id in the URL. All of these produce a 500 answer in the source.
- bcrypt is the idealised `Credentials.Hash`/`Matches` pair. The salt is passed in and the
  cost factor is only recorded. Apart from the 72-byte truncation, the hash has no collisions.
- Credentials.Truncated: counts characters, not bytes. bcrypt truncates the UTF-8 encoding at
  72 bytes, so a password with non-ASCII characters is cut at a different point than modelled.
- JavaScript `Number` arithmetic and rounding by the database's numeric column. Profit/loss is
  exact `real` arithmetic. Non-numeric or missing prices, which yield `NaN` in the source,
  are not modelled.
- Calendar arithmetic. `CURRENT_DATE` is the parameter `today`, dates are day numbers, and
  `DATE_TRUNC('month', …)` is the parameter `monthOf`.
- Values of other JSON types in the register and login fields (numbers, booleans, objects)
  and their JavaScript truthiness. Those fields are modelled as absent or as strings.
- Handlers.Store.AddTrade: every trade column is present in the model. The handler checks
  nothing (index.js:102-113), so a missing column is stored as NULL or makes the insert fail.
  A NULL trade_date is dropped by the weekly filter, sorted last on the equity curve and
  grouped under a NULL month listed first. A NULL user_id belongs to no user. None of this
  is modelled.
- Handlers.Store.UpdateTrade: every trade column is present in the model. The handler checks
  nothing (index.js:382-392), so a missing column overwrites the stored value with NULL or
  makes the update fail. The consequences are those listed for `AddTrade`.
- Concurrency, including the check-then-insert race in registration. Every handler is one
  atomic method call.
- The listing endpoints `GET /api/trades/:userId` and `GET /api/journal/:userId`, and the
  journal-entry insert (index.js:155-169, 187-232). They are single pass-through statements with no
  rule to state. The aggregates take the rows those queries would read as their input sequence.
- Ownership checks on update and delete. The source performs none (index.js:178, 406), and
  the model adds none.
- HTTP status codes and JSON serialisation, such as PostgreSQL returning `COUNT(*)` as a
  string. Errors are the `AuthError` values, and `UpdateTrade` returns `None` where the
  source returns an undefined trade.
