/**
 * The "Predict" button handler: validate the three inputs, encode and align
 * them with the saved feature names, ask the regressor for the demand, then
 * replace the table's rows with one recommendation per stocked item.
 */
module DemandForecasting {
  import opened Wrappers
  import opened InputValidation
  import opened FeatureAlignment
  import opened StockStatus
  import opened PredictionTable

  /** What the handler reports: the error dialog, or the prediction shown. */
  datatype Outcome = Rejected(error: InputError) | Predicted(demand: int)

  /**
   * Clear and refill the table: delete every row it holds, then insert one row per
   * stock entry with the entry's status against the predicted demand.
   */
  method RefreshTable(table: Table, stock: seq<StockItem>, demand: int)
    requires table.Valid()
    modifies table
    ensures table.Valid()
    ensures table.rows == Recommendations(stock, demand)
    ensures forall k :: 0 <= k < |table.ids| ==> table.ids[k] !in old(table.ids)
  {
    ghost var start := table.nextId;
    var children := table.GetChildren();
    for i := 0 to |children|
      invariant table.Valid() && table.nextId == start
      invariant table.ids == children[i..]
      invariant table.rows == old(table.rows)[i..]
    {
      table.Delete(children[i]);
    }
    for i := 0 to |stock|
      invariant table.Valid() && table.nextId >= start
      invariant table.rows == Recommendations(stock[..i], demand)
      invariant forall k :: 0 <= k < |table.ids| ==> table.ids[k] >= start
    {
      var item, quantity := stock[i].item, stock[i].quantity;
      var status := Adequate;
      if demand > quantity {
        status := Restock;
      } else if quantity >= demand + SafetyMargin {
        status := Available;
      }
      assert stock[..i + 1][..i] == stock[..i];
      var _ := table.Insert(TableRow(item, quantity, demand, status));
    }
    assert stock[..|stock|] == stock;
  }

  /**
   * The whole handler. `features` is the saved feature-name list and `model`
   * stands for the trained regressor followed by the conversion of its
   * prediction to an integer.
   */
  method PredictDemand(table: Table, dayText: string, weatherText: string, holidayText: string,
                       features: seq<string>, model: Row -> int) returns (outcome: Outcome)
    requires table.Valid()
    modifies table
    ensures table.Valid()
    ensures Validate(dayText, weatherText, holidayText).Err? ==>
              outcome == Rejected(Validate(dayText, weatherText, holidayText).error) && unchanged(table)
    ensures Validate(dayText, weatherText, holidayText).Ok? ==>
              var q := Validate(dayText, weatherText, holidayText).value;
              && outcome == Predicted(model(Reindexed(Encode(q), features)))
              && table.rows == Recommendations(CurrentStock, outcome.demand)
              && (forall k :: 0 <= k < |table.ids| ==> table.ids[k] !in old(table.ids))
  {
    var input := Validate(dayText, weatherText, holidayText);
    if input.Err? {
      return Rejected(input.error);
    }
    var encoded := Encode(input.value);
    var aligned := Align(encoded, features);
    var demand := model(aligned);
    RefreshTable(table, CurrentStock, demand);
    outcome := Predicted(demand);
  }
}
