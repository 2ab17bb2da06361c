/** The buy handler: the call into the shop service and the mapping of its error to an HTTP reply. */
module ShopHandler {
  import opened Wrappers
  import opened Model
  import opened Tables
  import opened Store
  import Catalog
  import ShopService

  /**
   * The reply for the service's outcome: the two sentinel errors are client errors with their
   * own texts, anything else is a 500 that hides the cause.
   */
  function ReplyFor(err: Option<Error>): (r: Reply)
    ensures r.status == 200 <==> err.None?
    ensures r.status == 400 <==> err == Some(ItemNotFound) || err == Some(InsufficientFunds)
    ensures r.status == 500 <==> err.Some? && err != Some(ItemNotFound) && err != Some(InsufficientFunds)
  {
    match err
    case None => Success
    case Some(ItemNotFound) => Fail(400, "item not found")
    case Some(InsufficientFunds) => Fail(400, "insufficient coins")
    case Some(_) => Fail(500, "internal error")
  }

  /** BuyItem: the service runs with the context's user id and the path's item name, unmodified. */
  method BuyItem(pool: Database, userId: Id, item: string, faults: map<ShopService.PurchaseStep, StoreError>)
      returns (reply: Reply)
    modifies pool
    ensures reply == ReplyFor(ShopService.PurchaseOutcome(old(pool.State()), userId, item, faults).0)
    ensures pool.State() == ShopService.PurchaseOutcome(old(pool.State()), userId, item, faults).1
  {
    var err := ShopService.BuyItem(pool, userId, item, faults);
    reply := ReplyFor(err);
  }

  /** The reply texts: "item not found", "insufficient coins" (not the error's own "insufficient funds"), "internal error". */
  lemma ReplyTexts(e: StoreError)
    ensures ReplyFor(Some(ItemNotFound)) == Fail(400, "item not found")
    ensures ReplyFor(Some(InsufficientFunds)) == Fail(400, "insufficient coins")
    ensures ReplyFor(Some(InsufficientFunds)).body.response.errors != Message(InsufficientFunds)
    ensures ReplyFor(Some(Store(e))) == Fail(500, "internal error")
    ensures ReplyFor(None) == Reply(200, StatusSuccess)
  {
  }

  /** A 200 from the buy handler means the purchase took place, with its reference effect. */
  lemma BuyOkMeansPurchased(t: Tables, userId: Id, item: string, faults: map<ShopService.PurchaseStep, StoreError>)
    ensures ReplyFor(ShopService.PurchaseOutcome(t, userId, item, faults).0).status == 200 <==>
      && item in Catalog.Names && ShopService.NoPurchaseFault(faults)
      && FindById(t.users, userId).Some? && FindById(t.users, userId).value.coins >= Catalog.Items[item].price
    ensures ReplyFor(ShopService.PurchaseOutcome(t, userId, item, faults).0).status != 200 ==>
      ShopService.PurchaseOutcome(t, userId, item, faults).1 == t
  {
    ShopService.PurchaseSucceedsIff(t, userId, item, faults);
    ShopService.PurchaseFailureChangesNothing(t, userId, item, faults);
  }

  /** A missing buyer is not told apart from a store failure: both give 500. */
  lemma MissingBuyerIsInternalError(t: Tables, userId: Id, item: string)
    requires item in Catalog.Names && FindById(t.users, userId).None?
    ensures ReplyFor(ShopService.PurchaseOutcome(t, userId, item, map[]).0) == Fail(500, "internal error")
  {
    ShopService.PurchaseFailureChangesNothing(t, userId, item, map[]);
  }
}
