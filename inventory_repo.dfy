/** The inventory repository: the in-transaction upsert and the per-user projection. */
module InventoryRepo {
  import opened Wrappers
  import opened Model
  import opened Tables
  import opened Store

  /** AddToInventoryTx: insert the (user, item) line with `quantity`, or add `quantity` to the existing line. */
  method AddToInventoryTx(tx: Tx, userId: Id, item: string, quantity: int, fault: Option<StoreError>)
      returns (err: Option<StoreError>)
    modifies tx
    ensures tx.open == old(tx.open)
    ensures err == if !old(tx.open) then Some(TxClosedError) else fault
    ensures err.None? ==> tx.staged == old(tx.staged).(inventory := Upsert(old(tx.staged.inventory), userId, item, quantity))
    ensures err.Some? ==> tx.staged == old(tx.staged)
  {
    err := tx.Exec(UpsertInventory(userId, item, quantity), fault);
  }

  /**
   * GetUserInventory: SELECT item_name, quantity FROM inventory WHERE user_id = $1, read row by
   * row.  The result is the read of the user's projection under the query's faults.
   */
  method GetUserInventory(pool: Database, userId: Id, faults: QueryFaults)
      returns (r: Result<seq<InventoryItem>, StoreError>)
    ensures r == ReadRows(InventoryOf(pool.inventory, userId), faults)
  {
    if faults.query.Some? {
      return Err(faults.query.value);
    }
    var rows := InventoryOf(pool.inventory, userId);
    var items: seq<InventoryItem> := [];
    var i := 0;
    while i < |rows| && NextRow(i) !in faults.rows
      invariant 0 <= i <= |rows|
      invariant items == rows[..i]
      invariant FirstStop(|rows|, faults.rows, i) == FirstStop(|rows|, faults.rows, 0)
    {
      if ScanRow(i) in faults.rows {
        return Err(faults.rows[ScanRow(i)]);
      }
      items := items + [rows[i]];
      i := i + 1;
    }
    return Ok(items);
  }

  /**
   * The inventory read returns every line of the user exactly when no call fails before the end
   * of the result set; a failing Next instead returns the lines before it with no error.
   */
  lemma InventoryReadIsComplete(inv: seq<InventoryRow>, userId: Id, faults: QueryFaults, name: string, quantity: int)
    requires faults.query.None? && ClearBefore(faults.rows, |InventoryOf(inv, userId)|)
    ensures ReadRows(InventoryOf(inv, userId), faults) == Ok(InventoryOf(inv, userId))
    ensures InventoryItem(name, quantity) in ReadRows(InventoryOf(inv, userId), faults).value <==>
      InventoryRow(userId, name, quantity) in inv
  {
    ReadIsCompleteIff(InventoryOf(inv, userId), faults);
    InventoryExactly(inv, userId, name, quantity);
  }

  /** A user with two inventory lines whose read ends early at the second line gets only the first, with no error. */
  lemma FailedNextDropsInventoryLines(userId: Id, e: StoreError)
    ensures var inv := [InventoryRow(userId, "cup", 1), InventoryRow(userId, "pen", 2)];
      ReadRows(InventoryOf(inv, userId), QueryFaults(None, map[NextRow(1) := e])) == Ok([InventoryItem("cup", 1)])
  {
    var inv := [InventoryRow(userId, "cup", 1), InventoryRow(userId, "pen", 2)];
    var rows := InventoryOf(inv, userId);
    assert InventoryOf(inv[1..], userId) == [InventoryItem("pen", 2)];
    assert rows == [InventoryItem("cup", 1), InventoryItem("pen", 2)];
    ReadStopsAtFirstFailure(rows, QueryFaults(None, map[NextRow(1) := e]), 1);
  }

  /** Two successive upserts of one unit on a line that did not exist leave one line of quantity 2. */
  lemma TwoPurchasesGiveOneLine(inv: seq<InventoryRow>, userId: Id, item: string)
    requires UniqueKeys(inv) && QuantityOf(inv, userId, item).None?
    ensures var after := Upsert(Upsert(inv, userId, item, 1), userId, item, 1);
      QuantityOf(after, userId, item) == Some(2) && UniqueKeys(after)
  {
    QuantityAfterUpsert(inv, userId, item, 1);
    QuantityAfterUpsert(Upsert(inv, userId, item, 1), userId, item, 1);
    UpsertKeepsUniqueKeys(inv, userId, item, 1);
    UpsertKeepsUniqueKeys(Upsert(inv, userId, item, 1), userId, item, 1);
  }
}
