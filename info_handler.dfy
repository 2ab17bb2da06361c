/**
 * The info handler: balance, inventory and transfer history of the authenticated user, with
 * each failing lookup mapped to its own reply.  Nothing is written on any path.
 */
module InfoHandler {
  import opened Wrappers
  import opened Model
  import opened Tables
  import opened Store
  import UserRepo
  import InventoryRepo
  import TransactionRepo

  /** Whether a lookup error is the store's "no rows" error. */
  predicate IsNoRows(e: StoreError)
  {
    e.kind == NoRows
  }

  /** The decision chain over the three lookups' results, in the order the handler makes them. */
  function Respond(found: UserRepo.UserLookup, inventory: Result<seq<InventoryItem>, StoreError>,
                   history: Result<TransactionHistory, StoreError>): (r: Reply)
    ensures r.status == 200 <==> found.err.None? && found.user.Some? && inventory.Ok? && history.Ok?
    ensures r.status == 200 ==>
      r.body == Info(InfoResponse(found.user.value.coins, inventory.value, history.value))
    ensures r.status == 404 <==> (found.err.Some? && IsNoRows(found.err.value)) || (found.err.None? && found.user.None?)
    ensures r.status == 404 ==> r == Fail(404, "user not found")
    ensures found.err.Some? && !IsNoRows(found.err.value) ==> r == Fail(500, "database error")
    ensures found.err.None? && found.user.Some? && inventory.Err? ==> r == Fail(500, "failed to get inventory")
    ensures found.err.None? && found.user.Some? && inventory.Ok? && history.Err? ==> r == Fail(500, "failed to get history")
  {
    if found.err.Some? then
      if IsNoRows(found.err.value) then Fail(404, "user not found") else Fail(500, "database error")
    else if found.user.None? then Fail(404, "user not found")
    else if inventory.Err? then Fail(500, "failed to get inventory")
    else if history.Err? then Fail(500, "failed to get history")
    else Reply(200, Info(InfoResponse(found.user.value.coins, inventory.value, history.value)))
  }

  /** What GetUserInfo replies on the tables `t`: the decision chain over the three reads of `t`, with their faults. */
  function InfoReply(t: Tables, userId: Id, lookupFault: Option<StoreError>, inventoryFaults: QueryFaults,
                     historyFaults: TransactionRepo.HistoryFaults): Reply
  {
    Respond(UserRepo.GetUserByID(t.users, userId, lookupFault),
            ReadRows(InventoryOf(t.inventory, userId), inventoryFaults),
            TransactionRepo.HistoryRead(t, userId, historyFaults))
  }

  /** GetUserInfo: read-only; it has no `modifies` clause, so the store is untouched on every path. */
  method GetUserInfo(pool: Database, userId: Id, lookupFault: Option<StoreError>, inventoryFaults: QueryFaults,
                     historyFaults: TransactionRepo.HistoryFaults) returns (reply: Reply)
    ensures reply == InfoReply(pool.State(), userId, lookupFault, inventoryFaults, historyFaults)
  {
    var found := UserRepo.GetUserByID(pool.users, userId, lookupFault);
    if found.err.Some? || found.user.None? {
      return Respond(found, Ok([]), Ok(TransactionHistory([], [])));
    }
    var inventory := InventoryRepo.GetUserInventory(pool, userId, inventoryFaults);
    if inventory.Err? {
      return Respond(found, inventory, Ok(TransactionHistory([], [])));
    }
    var history := TransactionRepo.GetTransactionHistory(pool, userId, historyFaults);
    reply := Respond(found, inventory, history);
  }

  /** With the real lookup by id the nil-user branch is never taken: a missing row arrives as "no rows". */
  lemma MissingUserIsNotFound(t: Tables, userId: Id, inventoryFaults: QueryFaults, historyFaults: TransactionRepo.HistoryFaults)
    requires FindById(t.users, userId).None?
    ensures InfoReply(t, userId, None, inventoryFaults, historyFaults) == Fail(404, "user not found")
  {
  }

  /** A lookup failure other than "no rows" is a 500 "database error". */
  lemma LookupFailureIsDatabaseError(t: Tables, userId: Id, fault: StoreError, inventoryFaults: QueryFaults,
                                     historyFaults: TransactionRepo.HistoryFaults)
    requires fault.kind == OtherFailure
    ensures InfoReply(t, userId, Some(fault), inventoryFaults, historyFaults) == Fail(500, "database error")
  {
  }

  /**
   * Without failures the reply is 200 with the stored balance, exactly the user's inventory lines
   * and exactly the ledger rows paid to and by the user.
   */
  lemma InfoShowsStoredState(t: Tables, userId: Id, name: string, quantity: int)
    requires FindById(t.users, userId).Some?
    ensures var r := InfoReply(t, userId, None, NoFaults, TransactionRepo.NoHistoryFaults);
      && r.status == 200
      && r.body.info.coins == FindById(t.users, userId).value.coins
      && r.body.info.coinHistory == TransactionRepo.HistoryOf(t, userId)
      && (InventoryItem(name, quantity) in r.body.info.inventory <==> InventoryRow(userId, name, quantity) in t.inventory)
  {
    InventoryRepo.InventoryReadIsComplete(t.inventory, userId, NoFaults, name, quantity);
    TransactionRepo.HistoryReadIsCompleteIff(t, userId, TransactionRepo.NoHistoryFaults);
  }

  /** A user with no inventory lines and no transfers still gets 200, with empty lists. */
  lemma EmptyUserGetsEmptyLists(t: Tables, userId: Id)
    requires FindById(t.users, userId).Some?
    requires forall k :: 0 <= k < |t.inventory| ==> t.inventory[k].userId != userId
    requires forall k :: 0 <= k < |t.transactions| ==> t.transactions[k].to != userId && t.transactions[k].from != userId
    ensures InfoReply(t, userId, None, NoFaults, TransactionRepo.NoHistoryFaults) ==
      Reply(200, Info(InfoResponse(FindById(t.users, userId).value.coins, [], TransactionHistory([], []))))
  {
    TransactionRepo.UntouchedUserHasEmptyHistory(t, userId);
    ReadIsCompleteIff(InventoryOf(t.inventory, userId), NoFaults);
    TransactionRepo.HistoryReadIsCompleteIff(t, userId, TransactionRepo.NoHistoryFaults);
  }

  /**
   * A failed Next on the first inventory row is not reported: a user who owns items still gets
   * 200, with an empty inventory list.
   */
  lemma FailedNextHidesInventory(t: Tables, userId: Id, e: StoreError)
    requires FindById(t.users, userId).Some? && InventoryOf(t.inventory, userId) != []
    ensures InfoReply(t, userId, None, QueryFaults(None, map[NextRow(0) := e]), TransactionRepo.NoHistoryFaults) ==
      Reply(200, Info(InfoResponse(FindById(t.users, userId).value.coins, [], TransactionRepo.HistoryOf(t, userId))))
  {
    ReadStopsAtFirstFailure(InventoryOf(t.inventory, userId), QueryFaults(None, map[NextRow(0) := e]), 0);
    TransactionRepo.HistoryReadIsCompleteIff(t, userId, TransactionRepo.NoHistoryFaults);
  }
}
