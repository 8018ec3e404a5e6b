/**
 * What the summary queries of index.js compute, stated over the rows of the
 * trades table as a sequence: the WHERE filters, COUNT(*), the conditional
 * sums that count wins and losses, SUM(profit_loss) with its NULL on no
 * rows, GROUP BY month, and ORDER BY profit_loss ... LIMIT 1.
 */
module Analytics {
  import opened Wrappers
  import opened Trades

  // ---------------------------------------------------------------------
  // Row selection and aggregation
  // ---------------------------------------------------------------------

  /** The rows of `ts` that satisfy `p`, in their original order (a WHERE clause). */
  function Select(ts: seq<Trade>, p: Trade -> bool): (r: seq<Trade>)
    ensures |r| <= |ts|
    ensures forall t :: t in r <==> t in ts && p(t)
  {
    if ts == [] then []
    else
      var init, last := ts[..|ts| - 1], ts[|ts| - 1];
      assert ts == init + [last];
      if p(last) then Select(init, p) + [last] else Select(init, p)
  }

  /** SUM(CASE WHEN p THEN 1 ELSE 0 END), taken as 0 on no rows. */
  function Count(ts: seq<Trade>, p: Trade -> bool): nat
  {
    if ts == [] then 0
    else Count(ts[..|ts| - 1], p) + (if p(ts[|ts| - 1]) then 1 else 0)
  }

  /** SUM(profit_loss), taken as 0 on no rows. */
  function TotalProfitLoss(ts: seq<Trade>): real
  {
    if ts == [] then 0.0
    else TotalProfitLoss(ts[..|ts| - 1]) + ts[|ts| - 1].profitLoss
  }

  /** SUM(profit_loss) as SQL returns it: NULL when there are no rows. */
  function SqlSum(ts: seq<Trade>): (s: Option<real>)
    ensures s.None? <==> ts == []
  {
    if ts == [] then None else Some(TotalProfitLoss(ts))
  }

  /** A winning trade: profit/loss strictly positive. */
  predicate IsWin(t: Trade) { t.profitLoss > 0.0 }

  /** A losing trade: profit/loss strictly negative. */
  predicate IsLoss(t: Trade) { t.profitLoss < 0.0 }

  /** Rows owned by `userId` (WHERE user_id = $1). */
  function OfUser(userId: nat): Trade -> bool
  {
    (t: Trade) => t.userId == userId
  }

  /** Rows owned by `userId` dated no earlier than seven days before `today`. */
  function RecentOfUser(userId: nat, today: Date): Trade -> bool
  {
    (t: Trade) => t.userId == userId && t.fields.date >= today - 7
  }

  /** The number of positions of `ts` whose row satisfies `p`: a reference definition of a count. */
  function MatchingPositions(ts: seq<Trade>, p: Trade -> bool): set<int>
  {
    set i | 0 <= i < |ts| && p(ts[i])
  }

  /** The conditional sum counts exactly the rows that satisfy its condition. */
  lemma {:induction false} CountIsNumberOfMatchingRows(ts: seq<Trade>, p: Trade -> bool)
    ensures Count(ts, p) == |MatchingPositions(ts, p)|
  {
    if ts != [] {
      var n := |ts| - 1;
      var init := ts[..n];
      CountIsNumberOfMatchingRows(init, p);
      var before := MatchingPositions(init, p);
      assert before == set i | 0 <= i < n && p(ts[i]);
      assert n !in before;
      if p(ts[n]) {
        assert MatchingPositions(ts, p) == before + {n};
      } else {
        assert MatchingPositions(ts, p) == before;
      }
    }
  }

  /** COUNT(*) over a WHERE clause equals the conditional sum of that clause. */
  lemma {:induction false} SelectSizeIsCount(ts: seq<Trade>, p: Trade -> bool)
    ensures |Select(ts, p)| == Count(ts, p)
  {
    if ts != [] {
      SelectSizeIsCount(ts[..|ts| - 1], p);
    }
  }

  /** The profit/loss of two runs of rows is the sum of each run's. */
  lemma {:induction false} TotalOfConcat(a: seq<Trade>, b: seq<Trade>)
    ensures TotalProfitLoss(a + b) == TotalProfitLoss(a) + TotalProfitLoss(b)
    decreases |b|
  {
    if b != [] {
      var init := b[..|b| - 1];
      TotalOfConcat(a, init);
      assert (a + b)[..|a + b| - 1] == a + init;
    } else {
      assert a + b == a;
    }
  }

  /** Taking out the row at position k takes it out of the multiset of rows. */
  lemma RemoveRowFromBag(b: seq<Trade>, k: nat)
    requires k < |b|
    ensures multiset(b[..k] + b[k + 1..]) == multiset(b) - multiset{b[k]}
  {
    assert b == b[..k] + [b[k]] + b[k + 1..];
  }

  /** Taking out the row at position k takes its profit/loss out of the total. */
  lemma RemoveRowFromTotal(b: seq<Trade>, k: nat)
    requires k < |b|
    ensures TotalProfitLoss(b) == TotalProfitLoss(b[..k] + b[k + 1..]) + b[k].profitLoss
  {
    var front, back := b[..k], b[k + 1..];
    var upTo := b[..k + 1];
    assert b == upTo + back;
    TotalOfConcat(upTo, back);
    TotalOfConcat(front, back);
    assert upTo[..k] == front;
  }

  /** SUM(profit_loss) does not depend on the order in which the rows come back. */
  lemma {:induction false} TotalIgnoresOrder(a: seq<Trade>, b: seq<Trade>)
    requires multiset(a) == multiset(b)
    ensures TotalProfitLoss(a) == TotalProfitLoss(b)
    decreases |a|
  {
    if a == [] {
      assert |multiset(b)| == 0;
    } else {
      var n := |a| - 1;
      var x := a[n];
      assert x in multiset(b) by {
        assert a == a[..n] + [x];
      }
      var k :| 0 <= k < |b| && b[k] == x;
      RemoveRowFromBag(a, n);
      RemoveRowFromBag(b, k);
      RemoveRowFromTotal(a, n);
      RemoveRowFromTotal(b, k);
      assert a[..n] + a[n + 1..] == a[..n];
      TotalIgnoresOrder(a[..n], b[..k] + b[k + 1..]);
    }
  }

  /** A WHERE clause that no row satisfies selects nothing. */
  lemma {:induction false} SelectNothing(ts: seq<Trade>, p: Trade -> bool)
    requires forall i :: 0 <= i < |ts| ==> !p(ts[i])
    ensures Select(ts, p) == []
  {
    if ts != [] {
      SelectNothing(ts[..|ts| - 1], p);
    }
  }

  /** A stricter WHERE clause never selects more rows. */
  lemma {:induction false} StricterSelectsFewer(ts: seq<Trade>, p: Trade -> bool, q: Trade -> bool)
    requires forall t :: p(t) ==> q(t)
    ensures |Select(ts, p)| <= |Select(ts, q)|
  {
    if ts != [] {
      StricterSelectsFewer(ts[..|ts| - 1], p, q);
    }
  }

  /** Filtering twice, where the inner filter is implied by the outer one, is filtering once. */
  lemma {:induction false} SelectNarrows(ts: seq<Trade>, p: Trade -> bool, q: Trade -> bool)
    requires forall t :: p(t) ==> q(t)
    ensures Select(Select(ts, q), p) == Select(ts, p)
  {
    if ts != [] {
      var init, last := ts[..|ts| - 1], ts[|ts| - 1];
      SelectNarrows(init, p, q);
      if q(last) {
        var inner := Select(init, q);
        assert Select(ts, q) == inner + [last];
        assert (inner + [last])[..|inner + [last]| - 1] == inner;
      }
    }
  }

  /** Every row goes to exactly one side of a condition, in count and in profit/loss. */
  lemma {:induction false} SelectSplits(ts: seq<Trade>, p: Trade -> bool, q: Trade -> bool)
    requires forall t :: q(t) <==> !p(t)
    ensures |Select(ts, p)| + |Select(ts, q)| == |ts|
    ensures TotalProfitLoss(Select(ts, p)) + TotalProfitLoss(Select(ts, q)) == TotalProfitLoss(ts)
  {
    if ts != [] {
      var init, last := ts[..|ts| - 1], ts[|ts| - 1];
      SelectSplits(init, p, q);
      var s := if p(last) then Select(init, p) else Select(init, q);
      assert (s + [last])[..|s + [last]| - 1] == s;
    }
  }

  // ---------------------------------------------------------------------
  // Weekly summary and dashboard statistics
  // ---------------------------------------------------------------------

  /**
   * One aggregate row: COUNT(*), the win and loss counts and the net profit.
   * The three sums are NULL (None) when no row is aggregated.
   */
  datatype Summary = Summary(totalTrades: nat, wins: Option<nat>, losses: Option<nat>, netProfit: Option<real>)

  /** The aggregate row over the rows `ts` that passed the WHERE clause. */
  function Summarize(ts: seq<Trade>): Summary
  {
    if ts == [] then Summary(0, None, None, None)
    else Summary(|ts|, Some(Count(ts, IsWin)), Some(Count(ts, IsLoss)), SqlSum(ts))
  }

  /** The weekly summary: the user's trades of the last seven days. */
  function WeeklySummary(ts: seq<Trade>, userId: nat, today: Date): Summary
  {
    Summarize(Select(ts, RecentOfUser(userId, today)))
  }

  /** The dashboard statistics: all the user's trades, with the net profit coalesced to 0. */
  function DashboardStats(ts: seq<Trade>, userId: nat): Summary
  {
    var s := Summarize(Select(ts, OfUser(userId)));
    s.(netProfit := Some(if s.netProfit.Some? then s.netProfit.value else 0.0))
  }

  /** Wins and losses never overlap: together they are at most the trade count, and all of it exactly when no trade broke even. */
  lemma {:induction false} WinsAndLossesPartition(ts: seq<Trade>)
    ensures Count(ts, IsWin) + Count(ts, IsLoss) <= |ts|
    ensures Count(ts, IsWin) + Count(ts, IsLoss) == |ts| <==> forall i :: 0 <= i < |ts| ==> ts[i].profitLoss != 0.0
  {
    if ts != [] {
      var init := ts[..|ts| - 1];
      WinsAndLossesPartition(init);
      assert forall i :: 0 <= i < |init| ==> init[i] == ts[i];
    }
  }

  /** A summary counts every aggregated row, and its wins, losses and net profit are the conditional counts and the sum. */
  lemma SummaryMeaning(ts: seq<Trade>)
    requires ts != []
    ensures Summarize(ts).totalTrades == |ts|
    ensures Summarize(ts).wins == Some(|MatchingPositions(ts, IsWin)|)
    ensures Summarize(ts).losses == Some(|MatchingPositions(ts, IsLoss)|)
    ensures Summarize(ts).wins.value + Summarize(ts).losses.value <= Summarize(ts).totalTrades
    ensures Summarize(ts).netProfit == Some(TotalProfitLoss(ts))
  {
    CountIsNumberOfMatchingRows(ts, IsWin);
    CountIsNumberOfMatchingRows(ts, IsLoss);
    WinsAndLossesPartition(ts);
  }

  /**
   * A user without trades: the dashboard reports a net profit of 0, while
   * the weekly summary reports NULL; win and loss counts are NULL in both.
   */
  lemma NoTradesSummaries(ts: seq<Trade>, userId: nat, today: Date)
    requires forall i :: 0 <= i < |ts| ==> ts[i].userId != userId
    ensures DashboardStats(ts, userId) == Summary(0, None, None, Some(0.0))
    ensures WeeklySummary(ts, userId, today) == Summary(0, None, None, None)
  {
    SelectNothing(ts, OfUser(userId));
    SelectNothing(ts, RecentOfUser(userId, today));
  }

  /** The dashboard never reports a NULL net profit, and it equals the sum over the user's trades. */
  lemma DashboardNetProfitIsTotal(ts: seq<Trade>, userId: nat)
    ensures DashboardStats(ts, userId).netProfit == Some(TotalProfitLoss(Select(ts, OfUser(userId))))
  {
  }

  /** The weekly window is part of the user's history: it never counts more trades than the dashboard. */
  lemma WeeklyWithinDashboard(ts: seq<Trade>, userId: nat, today: Date)
    ensures WeeklySummary(ts, userId, today).totalTrades <= DashboardStats(ts, userId).totalTrades
  {
    StricterSelectsFewer(ts, RecentOfUser(userId, today), OfUser(userId));
  }

  /**
   * A "Buy" of one lot by user 1 whose exit price makes its derived
   * profit/loss `pl`, for the worked examples below.
   */
  function ExampleTrade(id: nat, pl: real): (t: Trade)
    ensures t.profitLoss == DerivedProfitLoss(t.fields) == pl
  {
    Trade(id, 1, TradeFields(0, "EURUSD", "Buy", 0.0, pl / ContractMultiplier, 1.0, 0.0, 0.0, ""), pl)
  }

  /** Profit/losses 10, -5, 0, 20: four trades, two wins, one loss, net profit 25. */
  lemma SummaryExample()
    ensures Summarize([ExampleTrade(1, 10.0), ExampleTrade(2, -5.0), ExampleTrade(3, 0.0), ExampleTrade(4, 20.0)])
         == Summary(4, Some(2), Some(1), Some(25.0))
  {
    var s1 := [ExampleTrade(1, 10.0)];
    var s2 := s1 + [ExampleTrade(2, -5.0)];
    var s3 := s2 + [ExampleTrade(3, 0.0)];
    var s4 := s3 + [ExampleTrade(4, 20.0)];
    assert s4[..3] == s3 && s3[..2] == s2 && s2[..1] == s1 && s1[..0] == [];
    assert Count(s1, IsWin) == 1 && Count(s1, IsLoss) == 0 && TotalProfitLoss(s1) == 10.0;
    assert Count(s2, IsWin) == 1 && Count(s2, IsLoss) == 1 && TotalProfitLoss(s2) == 5.0;
    assert Count(s3, IsWin) == 1 && Count(s3, IsLoss) == 1 && TotalProfitLoss(s3) == 5.0;
    assert s4 == [ExampleTrade(1, 10.0), ExampleTrade(2, -5.0), ExampleTrade(3, 0.0), ExampleTrade(4, 20.0)];
  }

  // ---------------------------------------------------------------------
  // Monthly summary
  // ---------------------------------------------------------------------

  /** One row of the monthly summary. */
  datatype MonthRow = MonthRow(month: int, totalTrades: nat, netProfit: real)

  /** Rows whose trade date falls in month `m`, for the month key `monthOf` (DATE_TRUNC('month', ...)). */
  function InMonth(monthOf: Date -> int, m: int): Trade -> bool
  {
    (t: Trade) => monthOf(t.fields.date) == m
  }

  /** Rows whose trade date falls outside month `m`. */
  function OutsideMonth(monthOf: Date -> int, m: int): Trade -> bool
  {
    (t: Trade) => monthOf(t.fields.date) != m
  }

  /** The months in which the trades `ts` fall. */
  function MonthsOf(ts: seq<Trade>, monthOf: Date -> int): set<int>
  {
    set t | t in ts :: monthOf(t.fields.date)
  }

  /** The month keys of the summary rows. */
  function RowMonths(rows: seq<MonthRow>): set<int>
  {
    set r | r in rows :: r.month
  }

  /** The position of a trade in the latest month. */
  function LatestMonthIndex(ts: seq<Trade>, monthOf: Date -> int): (k: nat)
    requires ts != []
    ensures k < |ts|
    ensures forall t :: t in ts ==> monthOf(t.fields.date) <= monthOf(ts[k].fields.date)
  {
    if |ts| == 1 then 0
    else
      var k := LatestMonthIndex(ts[1..], monthOf) + 1;
      assert forall t :: t in ts ==> t == ts[0] || t in ts[1..];
      if monthOf(ts[0].fields.date) >= monthOf(ts[k].fields.date) then 0 else k
  }

  /** The latest month in which one of the trades `ts` falls. */
  function LatestMonth(ts: seq<Trade>, monthOf: Date -> int): int
    requires ts != []
  {
    monthOf(ts[LatestMonthIndex(ts, monthOf)].fields.date)
  }

  /**
   * Splitting the rows at their latest month: that month's group is not
   * empty, and every other row falls in an earlier month.
   */
  lemma SplitAtLatestMonth(ts: seq<Trade>, monthOf: Date -> int)
    requires ts != []
    ensures |Select(ts, InMonth(monthOf, LatestMonth(ts, monthOf)))| > 0
    ensures |Select(ts, InMonth(monthOf, LatestMonth(ts, monthOf)))|
          + |Select(ts, OutsideMonth(monthOf, LatestMonth(ts, monthOf)))| == |ts|
    ensures TotalProfitLoss(Select(ts, InMonth(monthOf, LatestMonth(ts, monthOf))))
          + TotalProfitLoss(Select(ts, OutsideMonth(monthOf, LatestMonth(ts, monthOf)))) == TotalProfitLoss(ts)
    ensures forall x :: x in MonthsOf(Select(ts, OutsideMonth(monthOf, LatestMonth(ts, monthOf))), monthOf) ==>
              x < LatestMonth(ts, monthOf)
    ensures MonthsOf(ts, monthOf)
         == {LatestMonth(ts, monthOf)} + MonthsOf(Select(ts, OutsideMonth(monthOf, LatestMonth(ts, monthOf))), monthOf)
  {
    var m := LatestMonth(ts, monthOf);
    var group := Select(ts, InMonth(monthOf, m));
    var rest := Select(ts, OutsideMonth(monthOf, m));
    assert ts[LatestMonthIndex(ts, monthOf)] in group;
    SelectSplits(ts, InMonth(monthOf, m), OutsideMonth(monthOf, m));
    forall x | x in MonthsOf(ts, monthOf) ensures x in {m} + MonthsOf(rest, monthOf) {
      var t :| t in ts && monthOf(t.fields.date) == x;
      if x != m { assert t in rest; }
    }
  }

  /** Month keys strictly decrease along the rows: most recent first, no month twice. */
  ghost predicate Descending(rows: seq<MonthRow>)
  {
    forall i, j :: 0 <= i < j < |rows| ==> rows[i].month > rows[j].month
  }

  /** A row for a month later than every month of `rest` can be put in front of `rest`. */
  lemma PrependLatestMonth(row: MonthRow, rest: seq<MonthRow>, months: set<int>)
    requires Descending(rest) && RowMonths(rest) == months
    requires forall x :: x in months ==> x < row.month
    ensures Descending([row] + rest)
    ensures RowMonths([row] + rest) == {row.month} + months
  {
    forall j | 0 <= j < |rest| ensures rest[j].month < row.month {
      assert rest[j].month in RowMonths(rest);
    }
    assert forall r :: r in [row] + rest <==> r == row || r in rest;
  }

  /**
   * GROUP BY month ORDER BY month DESC over the rows `ts`: one row per month
   * in which some trade falls, most recent month first.
   */
  function Months(ts: seq<Trade>, monthOf: Date -> int): (rows: seq<MonthRow>)
    ensures RowMonths(rows) == MonthsOf(ts, monthOf)
    ensures Descending(rows)
    decreases |ts|
  {
    if ts == [] then []
    else
      var m := LatestMonth(ts, monthOf);
      var group := Select(ts, InMonth(monthOf, m));
      var rest := Select(ts, OutsideMonth(monthOf, m));
      SplitAtLatestMonth(ts, monthOf);
      var earlier := Months(rest, monthOf);
      var row := MonthRow(m, |group|, TotalProfitLoss(group));
      PrependLatestMonth(row, earlier, MonthsOf(rest, monthOf));
      [row] + earlier
  }

  /** The monthly summary of a user's trades. */
  function MonthlySummary(ts: seq<Trade>, userId: nat, monthOf: Date -> int): seq<MonthRow>
  {
    Months(Select(ts, OfUser(userId)), monthOf)
  }

  /** Each monthly row holds the count and the profit/loss sum of exactly the trades of its month. */
  lemma {:induction false} MonthRowIsGroup(ts: seq<Trade>, monthOf: Date -> int, r: MonthRow)
    requires r in Months(ts, monthOf)
    ensures r.totalTrades == |Select(ts, InMonth(monthOf, r.month))| > 0
    ensures r.netProfit == TotalProfitLoss(Select(ts, InMonth(monthOf, r.month)))
    decreases |ts|
  {
    var m := LatestMonth(ts, monthOf);
    var rest := Select(ts, OutsideMonth(monthOf, m));
    SplitAtLatestMonth(ts, monthOf);
    if r != Months(ts, monthOf)[0] {
      assert r in Months(rest, monthOf);
      MonthRowIsGroup(rest, monthOf, r);
      assert r.month in MonthsOf(rest, monthOf);
      SelectNarrows(ts, InMonth(monthOf, r.month), OutsideMonth(monthOf, m));
    }
  }

  /** The monthly rows add up to the whole history: total trades and net profit. */
  lemma {:induction false} MonthRowsAddUp(ts: seq<Trade>, monthOf: Date -> int)
    ensures TradesInRows(Months(ts, monthOf)) == |ts|
    ensures ProfitInRows(Months(ts, monthOf)) == TotalProfitLoss(ts)
    decreases |ts|
  {
    if ts != [] {
      var m := LatestMonth(ts, monthOf);
      var rest := Select(ts, OutsideMonth(monthOf, m));
      SplitAtLatestMonth(ts, monthOf);
      MonthRowsAddUp(rest, monthOf);
    }
  }

  /** Sum of the total_trades column. */
  function TradesInRows(rows: seq<MonthRow>): nat
  {
    if rows == [] then 0 else rows[0].totalTrades + TradesInRows(rows[1..])
  }

  /** Sum of the net_profit column. */
  function ProfitInRows(rows: seq<MonthRow>): real
  {
    if rows == [] then 0.0 else rows[0].netProfit + ProfitInRows(rows[1..])
  }

  // ---------------------------------------------------------------------
  // Best and worst trade
  // ---------------------------------------------------------------------

  /** ORDER BY profit_loss DESC LIMIT 1: a trade of greatest profit/loss, absent on no rows. */
  function Best(ts: seq<Trade>): (b: Option<Trade>)
    ensures b.None? <==> ts == []
    ensures b.Some? ==> b.value in ts && forall t :: t in ts ==> t.profitLoss <= b.value.profitLoss
  {
    if ts == [] then None
    else
      var rest := Best(ts[1..]);
      assert forall t :: t in ts ==> t == ts[0] || t in ts[1..];
      if rest.None? || ts[0].profitLoss >= rest.value.profitLoss then Some(ts[0]) else rest
  }

  /** ORDER BY profit_loss ASC LIMIT 1: a trade of least profit/loss, absent on no rows. */
  function Worst(ts: seq<Trade>): (w: Option<Trade>)
    ensures w.None? <==> ts == []
    ensures w.Some? ==> w.value in ts && forall t :: t in ts ==> w.value.profitLoss <= t.profitLoss
  {
    if ts == [] then None
    else
      var rest := Worst(ts[1..]);
      assert forall t :: t in ts ==> t == ts[0] || t in ts[1..];
      if rest.None? || ts[0].profitLoss <= rest.value.profitLoss then Some(ts[0]) else rest
  }

  /** The best and the worst trade of a user. */
  function BestAndWorst(ts: seq<Trade>, userId: nat): (bw: (Option<Trade>, Option<Trade>))
    ensures bw.0.Some? ==> bw.0.value.userId == userId && bw.0.value in ts
    ensures bw.1.Some? ==> bw.1.value.userId == userId && bw.1.value in ts
  {
    var mine := Select(ts, OfUser(userId));
    (Best(mine), Worst(mine))
  }

  /** Profit/losses 10, -5 and 20: the best trade has 20, the worst -5. */
  lemma BestWorstExample()
    ensures var bw := BestAndWorst([ExampleTrade(1, 10.0), ExampleTrade(2, -5.0), ExampleTrade(3, 20.0)], 1);
            bw.0 == Some(ExampleTrade(3, 20.0)) && bw.1 == Some(ExampleTrade(2, -5.0))
  {
    var ts := [ExampleTrade(1, 10.0), ExampleTrade(2, -5.0), ExampleTrade(3, 20.0)];
    var mine := Select(ts, OfUser(1));
    assert ExampleTrade(3, 20.0) in mine && ExampleTrade(2, -5.0) in mine;
    assert forall t :: t in mine ==> t == ts[0] || t == ts[1] || t == ts[2];
  }

  /** The best trade is never worse than the worst one, and both are absent exactly when the user has no trades. */
  lemma BestNotBelowWorst(ts: seq<Trade>, userId: nat)
    ensures (BestAndWorst(ts, userId).0.None? && BestAndWorst(ts, userId).1.None?)
            <==> forall i :: 0 <= i < |ts| ==> ts[i].userId != userId
    ensures BestAndWorst(ts, userId).0.Some? ==>
              BestAndWorst(ts, userId).1.value.profitLoss <= BestAndWorst(ts, userId).0.value.profitLoss
  {
    var mine := Select(ts, OfUser(userId));
    if mine != [] {
      assert mine[0] in ts;
    } else {
      assert forall i :: 0 <= i < |ts| ==> ts[i] !in mine;
    }
  }
}
