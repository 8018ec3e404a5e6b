/**
 * The equity curve of index.js: a running total, seeded at zero, over the
 * user's trades in ascending date order, with one point per trade.
 */
module Equity {
  import opened Wrappers
  import opened Trades
  import opened Analytics

  /** One point of the curve: a trade's date and the equity after that trade. */
  datatype Point = Point(date: Date, equity: real)

  /**
   * Builds the curve over the rows the equity query returned, in their order:
   * point i carries row i's date and the profit/loss summed over rows 0..i.
   */
  method EquityCurve(rows: seq<Trade>) returns (curve: seq<Point>)
    ensures |curve| == |rows|
    ensures forall i :: 0 <= i < |rows| ==>
              curve[i] == Point(rows[i].fields.date, TotalProfitLoss(rows[..i + 1]))
  {
    var equity := 0.0;
    curve := [];
    var i := 0;
    while i < |rows|
      invariant 0 <= i <= |rows|
      invariant |curve| == i
      invariant equity == TotalProfitLoss(rows[..i])
      invariant forall j :: 0 <= j < i ==> curve[j] == Point(rows[j].fields.date, TotalProfitLoss(rows[..j + 1]))
    {
      EquityStep(rows, i);
      equity := equity + rows[i].profitLoss;
      curve := curve + [Point(rows[i].fields.date, equity)];
      i := i + 1;
    }
  }

  /** Each point adds exactly its own trade's profit/loss to the equity before it. */
  lemma EquityStep(rows: seq<Trade>, i: nat)
    requires i < |rows|
    ensures TotalProfitLoss(rows[..i + 1]) == TotalProfitLoss(rows[..i]) + rows[i].profitLoss
  {
    assert rows[..i + 1][..i] == rows[..i];
  }

  /** With no losing trade the running total over a longer prefix is never smaller. */
  lemma {:induction false} PrefixTotalsGrow(rows: seq<Trade>, i: nat, j: nat)
    requires forall k :: 0 <= k < |rows| ==> rows[k].profitLoss >= 0.0
    requires i <= j <= |rows|
    ensures TotalProfitLoss(rows[..i]) <= TotalProfitLoss(rows[..j])
    decreases j - i
  {
    if i < j {
      PrefixTotalsGrow(rows, i, j - 1);
      EquityStep(rows, j - 1);
    }
  }

  /** With no losing trade the equity never decreases along the curve. */
  lemma EquityNonDecreasing(rows: seq<Trade>, curve: seq<Point>)
    requires |curve| == |rows|
    requires forall i :: 0 <= i < |rows| ==> curve[i].equity == TotalProfitLoss(rows[..i + 1])
    requires forall k :: 0 <= k < |rows| ==> rows[k].profitLoss >= 0.0
    ensures forall i, j :: 0 <= i <= j < |curve| ==> curve[i].equity <= curve[j].equity
  {
    forall i, j | 0 <= i <= j < |curve| ensures curve[i].equity <= curve[j].equity {
      PrefixTotalsGrow(rows, i + 1, j + 1);
    }
  }

  /**
   * The last point of a user's curve is the dashboard's net profit for that
   * user, whatever order the equity query returned the user's rows in.
   */
  lemma FinalEquityIsNetProfit(ts: seq<Trade>, userId: nat, rows: seq<Trade>, curve: seq<Point>)
    requires multiset(rows) == multiset(Select(ts, OfUser(userId)))
    requires |curve| == |rows|
    requires forall i :: 0 <= i < |rows| ==> curve[i].equity == TotalProfitLoss(rows[..i + 1])
    requires curve != []
    ensures DashboardStats(ts, userId).netProfit == Some(curve[|curve| - 1].equity)
  {
    assert rows[..|rows|] == rows;
    TotalIgnoresOrder(rows, Select(ts, OfUser(userId)));
  }
}
