/**
 * The results table (a Treeview with the columns Food Item, Current Stock,
 * Predicted Demand and Status) reduced to what the handler uses of it: its
 * rows in display order, each under an item id, and the operations
 * `get_children`, `delete` and `insert` at the end.
 */
module PredictionTable {
  import opened StockStatus

  class Table {
    /** The ids of the rows, in display order. */
    var ids: seq<nat>
    /** The rows' values, parallel to ids. */
    var rows: seq<TableRow>
    /** The id the next inserted row receives. */
    var nextId: nat

    ghost predicate Valid()
      reads this
    {
      && |ids| == |rows|
      && (forall k :: 0 <= k < |ids| ==> ids[k] < nextId)
      && (forall j, k :: 0 <= j < k < |ids| ==> ids[j] != ids[k])
    }

    constructor ()
      ensures Valid() && ids == [] && rows == []
    {
      ids, rows, nextId := [], [], 0;
    }

    /** `tree.get_children()`: the ids of the rows, in display order. */
    method GetChildren() returns (children: seq<nat>)
      requires Valid()
      ensures children == ids
    {
      children := ids;
    }

    /** `tree.delete(id)`: removes the row with that id; the others keep their order. */
    method Delete(id: nat)
      requires Valid() && id in ids
      modifies this
      ensures Valid() && nextId == old(nextId)
      ensures exists k :: 0 <= k < |old(ids)| && old(ids)[k] == id
                && ids == old(ids)[..k] + old(ids)[k + 1..]
                && rows == old(rows)[..k] + old(rows)[k + 1..]
    {
      var k :| 0 <= k < |ids| && ids[k] == id;
      ids, rows := ids[..k] + ids[k + 1..], rows[..k] + rows[k + 1..];
    }

    /** `tree.insert("", "end", values=row)`: appends a row under a fresh id. */
    method Insert(row: TableRow) returns (id: nat)
      requires Valid()
      modifies this
      ensures Valid()
      ensures old(nextId) <= id < nextId
      ensures ids == old(ids) + [id] && rows == old(rows) + [row]
    {
      id := nextId;
      ids, rows, nextId := ids + [id], rows + [row], nextId + 1;
    }
  }
}
