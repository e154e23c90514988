/**
 * The stock list the forecast is compared against and the rule that turns an
 * item's stock and the predicted demand into a recommendation.
 */
module StockStatus {

  /** The recommendation shown in the table's Status column. */
  datatype Status = Restock | Available | Adequate

  /** The text the table shows for each status. */
  function Label(s: Status): string {
    match s
    case Restock => "Restock"
    case Available => "Available"
    case Adequate => "Adequate"
  }

  /** The three texts differ, so a `Status` value stands for the text the table shows. */
  lemma LabelInjective(a: Status, b: Status)
    ensures Label(a) == Label(b) ==> a == b
  {
  }

  /** Stock at least this far above the demand counts as comfortably available. */
  const SafetyMargin: int := 5

  /**
   * The status rule: stock below the demand needs restocking, stock at least
   * SafetyMargin above it is available, anything in between is adequate.
   */
  function StatusOf(stock: int, demand: int): (s: Status)
    ensures s == Restock <==> demand > stock
    ensures s == Available <==> stock >= demand + SafetyMargin
    ensures s == Adequate <==> demand <= stock < demand + SafetyMargin
  {
    var headroom := stock - demand;
    if headroom < 0 then Restock
    else if headroom < SafetyMargin then Adequate
    else Available
  }

  /** Orders the statuses from worst to best supplied. */
  function Rank(s: Status): nat {
    match s
    case Restock => 0
    case Adequate => 1
    case Available => 2
  }

  /** More stock never gives a worse status, and more demand never a better one. */
  lemma StatusMonotone(stock1: int, stock2: int, demand1: int, demand2: int)
    requires stock1 <= stock2 && demand2 <= demand1
    ensures Rank(StatusOf(stock1, demand1)) <= Rank(StatusOf(stock2, demand2))
  {
  }

  /** The status depends only on how far the stock lies above the demand. */
  lemma StatusShiftInvariant(stock: int, demand: int, delta: int)
    ensures StatusOf(stock + delta, demand + delta) == StatusOf(stock, demand)
  {
  }

  /** One entry of the `current_stock` dictionary. */
  datatype StockItem = StockItem(item: string, quantity: int)

  /** The demonstration stock levels, in the dictionary's insertion order. */
  const CurrentStock: seq<StockItem> := [
    StockItem("Pizza", 20),
    StockItem("Burger", 35),
    StockItem("Salad", 10),
    StockItem("Pasta", 15),
    StockItem("Dumplings", 5)
  ]

  predicate DistinctItems(stock: seq<StockItem>) {
    forall j, k :: 0 <= j < k < |stock| ==> stock[j].item != stock[k].item
  }

  lemma CurrentStockIsDictionary()
    ensures DistinctItems(CurrentStock)
  {
  }

  /** One line of the prediction table: item, stock, predicted demand, status. */
  datatype TableRow = TableRow(item: string, stock: int, demand: int, status: Status)

  /** The values inserted for one entry: its item, its stock, the demand and the entry's status. */
  function RowFor(entry: StockItem, demand: int): (row: TableRow)
    ensures row.item == entry.item && row.stock == entry.quantity && row.demand == demand
    ensures row.status == Restock <==> entry.quantity < demand
    ensures row.status == Available <==> entry.quantity >= demand + SafetyMargin
  {
    TableRow(entry.item, entry.quantity, demand, StatusOf(entry.quantity, demand))
  }

  /** The table contents a prediction should produce: one row per stock entry, in order. */
  function Recommendations(stock: seq<StockItem>, demand: int): (rows: seq<TableRow>)
    ensures |rows| == |stock|
    ensures forall k :: 0 <= k < |stock| ==> rows[k] == RowFor(stock[k], demand)
  {
    if stock == [] then []
    else Recommendations(stock[..|stock| - 1], demand) + [RowFor(stock[|stock| - 1], demand)]
  }

  /**
   * Every row carries the one predicted value, the item's own name and stock,
   * and a status that is Restock exactly when that stock is below the demand.
   */
  lemma RecommendationRows(stock: seq<StockItem>, demand: int, k: int)
    requires 0 <= k < |stock|
    ensures Recommendations(stock, demand)[k].demand == demand
    ensures Recommendations(stock, demand)[k].item == stock[k].item
    ensures Recommendations(stock, demand)[k].stock == stock[k].quantity
    ensures Recommendations(stock, demand)[k].status == Restock <==> stock[k].quantity < demand
    ensures Recommendations(stock, demand)[k].status == Available <==> stock[k].quantity >= demand + SafetyMargin
  {
  }

  /** With distinct items, the table lists each item exactly once. */
  lemma RecommendationsDistinct(stock: seq<StockItem>, demand: int)
    requires DistinctItems(stock)
    ensures forall j, k :: 0 <= j < k < |stock| ==>
      Recommendations(stock, demand)[j].item != Recommendations(stock, demand)[k].item
  {
  }

  /** A prediction of 15 against the demonstration stock. */
  lemma DemandFifteen()
    ensures var rows := Recommendations(CurrentStock, 15);
      && rows[0].status == Available  // Pizza, 20
      && rows[1].status == Available  // Burger, 35
      && rows[2].status == Restock    // Salad, 10
      && rows[3].status == Adequate   // Pasta, 15
      && rows[4].status == Restock    // Dumplings, 5
  {
  }
}
