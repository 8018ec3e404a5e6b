/**
 * The trade record and the profit/loss rule applied by the add-trade and
 * update-trade handlers of index.js.
 */
module Trades {

  /** A calendar date, as a day number; calendar arithmetic is not modelled. */
  type Date = int

  /** Point value applied to a raw price difference. */
  const ContractMultiplier: real := 100.0

  /**
   * The columns a client sends for a trade. There is deliberately no
   * profit/loss column: the handlers never read one from the request body.
   */
  datatype TradeFields = TradeFields(
    date: Date,
    pair: string,
    tradeType: string,
    entryPrice: real,
    exitPrice: real,
    lotSize: real,
    stopLoss: real,
    takeProfit: real,
    notes: string)

  /** A row of the trades table: the client's columns plus the derived profit/loss. */
  datatype Trade = Trade(id: nat, userId: nat, fields: TradeFields, profitLoss: real)

  /** Profit/loss of a closed trade; any direction other than "Buy" or "Sell" gives 0. */
  function ProfitLoss(tradeType: string, entryPrice: real, exitPrice: real, lotSize: real): real
  {
    if tradeType == "Buy" then (exitPrice - entryPrice) * ContractMultiplier * lotSize
    else if tradeType == "Sell" then (entryPrice - exitPrice) * ContractMultiplier * lotSize
    else 0.0
  }

  /** The profit/loss the handlers store for the given client columns. */
  function DerivedProfitLoss(f: TradeFields): real
  {
    ProfitLoss(f.tradeType, f.entryPrice, f.exitPrice, f.lotSize)
  }

  /** The same prices and lot size booked as "Sell" give exactly the negation of "Buy". */
  lemma SellIsNegatedBuy(entryPrice: real, exitPrice: real, lotSize: real)
    ensures ProfitLoss("Sell", entryPrice, exitPrice, lotSize) == -ProfitLoss("Buy", entryPrice, exitPrice, lotSize)
  {
  }

  /** An unrecognised direction (including a different spelling such as "buy") books zero, without error. */
  lemma UnknownDirectionBooksZero(tradeType: string, entryPrice: real, exitPrice: real, lotSize: real)
    requires tradeType != "Buy" && tradeType != "Sell"
    ensures ProfitLoss(tradeType, entryPrice, exitPrice, lotSize) == 0.0
  {
  }

  /**
   * For a positive lot size a "Buy" is profitable exactly when the price rose,
   * and a "Sell" exactly when it fell.
   */
  lemma ProfitableIffPriceMovedTheRightWay(entryPrice: real, exitPrice: real, lotSize: real)
    requires lotSize > 0.0
    ensures ProfitLoss("Buy", entryPrice, exitPrice, lotSize) > 0.0 <==> exitPrice > entryPrice
    ensures ProfitLoss("Sell", entryPrice, exitPrice, lotSize) > 0.0 <==> exitPrice < entryPrice
  {
    // Both profit/losses are the price move times k > 0; the sign of a product
    // with a positive factor needs the case split below.
    var d := exitPrice - entryPrice;
    var k := ContractMultiplier * lotSize;
    assert k > 0.0;
    assert ProfitLoss("Buy", entryPrice, exitPrice, lotSize) == d * k;
    assert ProfitLoss("Sell", entryPrice, exitPrice, lotSize) == -(d * k);
    if d > 0.0 {
      assert d * k > 0.0;
    } else {
      assert d * k <= 0.0;
    }
  }

  /** A "Buy" of one lot entered at 1.1000 and closed at 1.1050 books 0.5. */
  lemma BuyExample()
    ensures ProfitLoss("Buy", 1.1000, 1.1050, 1.0) == 0.5
  {
  }
}
