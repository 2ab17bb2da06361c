/**
 * The shop service: buying one unit of a catalog item.  The balance is checked on a snapshot
 * read, then one transaction debits the price and upserts the inventory line by one.
 */
module ShopService {
  import opened Wrappers
  import opened Model
  import opened Tables
  import opened Store
  import Catalog
  import UserRepo
  import InventoryRepo

  /** The store calls of BuyItem that can fail. */
  datatype PurchaseStep = LoadBuyer | BeginPurchase | DebitBuyer | AddItem | CommitPurchase

  /** The reference effect of a purchase: the buyer pays `price` and holds one more `item`. */
  function Purchased(t: Tables, userId: Id, item: string, price: int): Tables
  {
    t.(users := Credit(t.users, userId, Debit(price)), inventory := Upsert(t.inventory, userId, item, 1))
  }

  /** The outcome of BuyItem on the tables `t`: the error returned, and the tables afterwards. */
  function PurchaseOutcome(t: Tables, userId: Id, itemName: string, faults: map<PurchaseStep, StoreError>): (Option<Error>, Tables)
  {
    match Catalog.Lookup(itemName)
    case None => (Some(ItemNotFound), t)
    case Some(item) =>
      var buyer := UserRepo.GetUserByID(t.users, userId, FaultAt(faults, LoadBuyer));
      if buyer.err.Some? then (Some(Store(buyer.err.value)), t)
      else if buyer.user.value.coins < item.price then (Some(InsufficientFunds), t)
      else if BeginPurchase in faults then (Some(Store(faults[BeginPurchase])), t)
      else if DebitBuyer in faults then (Some(Store(faults[DebitBuyer])), t)
      else if AddItem in faults then (Some(Store(faults[AddItem])), t)
      else if CommitPurchase in faults then (Some(Store(faults[CommitPurchase])), t)
      else (None, Purchased(t, userId, itemName, item.price))
  }

  /** BuyItem: look the item up, read the buyer, check the funds, then debit and upsert in one transaction. */
  method BuyItem(pool: Database, userId: Id, itemName: string, faults: map<PurchaseStep, StoreError>)
      returns (err: Option<Error>)
    modifies pool
    ensures (err, pool.State()) == PurchaseOutcome(old(pool.State()), userId, itemName, faults)
  {
    var item := Catalog.Lookup(itemName);
    if item.None? {
      return Some(ItemNotFound);
    }
    var buyer := UserRepo.GetUserByID(pool.users, userId, FaultAt(faults, LoadBuyer));
    if buyer.err.Some? {
      return Some(Store(buyer.err.value));
    }
    if buyer.user.value.coins < item.value.price {
      return Some(InsufficientFunds);
    }
    var tx, beginErr := UserRepo.BeginTx(pool, FaultAt(faults, BeginPurchase));
    if beginErr.Some? {
      return Some(Store(beginErr.value));
    }
    var debitErr := UserRepo.UpdateUserCoinsTx(tx, userId, Debit(item.value.price), FaultAt(faults, DebitBuyer));
    if debitErr.Some? {
      tx.Rollback();
      return Some(Store(debitErr.value));
    }
    var addErr := InventoryRepo.AddToInventoryTx(tx, userId, itemName, 1, FaultAt(faults, AddItem));
    if addErr.Some? {
      tx.Rollback();
      return Some(Store(addErr.value));
    }
    var commitErr := tx.Commit(FaultAt(faults, CommitPurchase));
    if commitErr.Some? {
      return Some(Store(commitErr.value));
    }
    return None;
  }

  /** Whether none of the five store calls of a purchase fails. */
  predicate NoPurchaseFault(faults: map<PurchaseStep, StoreError>)
  {
    LoadBuyer !in faults && BeginPurchase !in faults && DebitBuyer !in faults && AddItem !in faults && CommitPurchase !in faults
  }

  /**
   * A purchase succeeds exactly when the item is in the catalog, no store call fails, the buyer
   * exists and holds at least the price; it then has the reference effect.
   */
  lemma PurchaseSucceedsIff(t: Tables, userId: Id, itemName: string, faults: map<PurchaseStep, StoreError>)
    ensures PurchaseOutcome(t, userId, itemName, faults).0.None? <==>
      && itemName in Catalog.Names && NoPurchaseFault(faults)
      && FindById(t.users, userId).Some? && FindById(t.users, userId).value.coins >= Catalog.Items[itemName].price
    ensures PurchaseOutcome(t, userId, itemName, faults).0.None? ==>
      PurchaseOutcome(t, userId, itemName, faults).1 == Purchased(t, userId, itemName, Catalog.Items[itemName].price)
  {
  }

  /** An unknown item is refused before any store call. */
  lemma UnknownItemIsRefused(t: Tables, userId: Id, itemName: string, faults: map<PurchaseStep, StoreError>)
    requires itemName !in Catalog.Names
    ensures PurchaseOutcome(t, userId, itemName, faults) == (Some(ItemNotFound), t)
  {
  }

  /** A snapshot balance below the price is refused before a transaction is opened. */
  lemma PurchaseRefusesOverdraft(t: Tables, userId: Id, itemName: string, faults: map<PurchaseStep, StoreError>)
    requires itemName in Catalog.Names && LoadBuyer !in faults
    requires FindById(t.users, userId).Some? && FindById(t.users, userId).value.coins < Catalog.Items[itemName].price
    ensures PurchaseOutcome(t, userId, itemName, faults) == (Some(InsufficientFunds), t)
  {
  }

  /** Any failed purchase leaves balances, ledger and inventory exactly as they were; a failing buyer read is returned unchanged. */
  lemma PurchaseFailureChangesNothing(t: Tables, userId: Id, itemName: string, faults: map<PurchaseStep, StoreError>)
    ensures PurchaseOutcome(t, userId, itemName, faults).0.Some? ==> PurchaseOutcome(t, userId, itemName, faults).1 == t
    ensures itemName in Catalog.Names && LoadBuyer !in faults && FindById(t.users, userId).None? ==>
      PurchaseOutcome(t, userId, itemName, faults).0 == Some(Store(NoRowsError))
    ensures itemName in Catalog.Names && LoadBuyer in faults ==>
      PurchaseOutcome(t, userId, itemName, faults).0 == Some(Store(faults[LoadBuyer]))
  {
  }

  /** Whether a purchase gets past the balance check and opens its transaction. */
  predicate ReachesPurchaseTx(t: Tables, userId: Id, itemName: string, faults: map<PurchaseStep, StoreError>)
  {
    && itemName in Catalog.Names && LoadBuyer !in faults
    && FindById(t.users, userId).Some? && FindById(t.users, userId).value.coins >= Catalog.Items[itemName].price
  }

  /** Past the balance check, the first failing call of begin, debit, upsert and commit is returned unchanged. */
  lemma PurchaseReturnsStoreError(t: Tables, userId: Id, itemName: string, faults: map<PurchaseStep, StoreError>)
    requires ReachesPurchaseTx(t, userId, itemName, faults)
    ensures BeginPurchase in faults ==> PurchaseOutcome(t, userId, itemName, faults).0 == Some(Store(faults[BeginPurchase]))
    ensures BeginPurchase !in faults && DebitBuyer in faults ==>
      PurchaseOutcome(t, userId, itemName, faults).0 == Some(Store(faults[DebitBuyer]))
    ensures BeginPurchase !in faults && DebitBuyer !in faults && AddItem in faults ==>
      PurchaseOutcome(t, userId, itemName, faults).0 == Some(Store(faults[AddItem]))
    ensures BeginPurchase !in faults && DebitBuyer !in faults && AddItem !in faults && CommitPurchase in faults ==>
      PurchaseOutcome(t, userId, itemName, faults).0 == Some(Store(faults[CommitPurchase]))
  {
  }

  /** The reference effect on balances: the buyer is down by exactly the price, every other account unchanged. */
  lemma PurchasedBalances(t: Tables, userId: Id, item: string, price: int, x: Id)
    ensures FindById(Purchased(t, userId, item, price).users, x).Some? == FindById(t.users, x).Some?
    ensures FindById(t.users, x).Some? ==>
      FindById(Purchased(t, userId, item, price).users, x).value ==
        var u := FindById(t.users, x).value; u.(coins := u.coins - if x == userId then price else 0)
  {
    FindAfterCredit(t.users, userId, Debit(price), x);
  }

  /** The reference effect on the inventory: the (buyer, item) line is up by one, or created at one; no other line moves. */
  lemma PurchasedInventory(t: Tables, userId: Id, item: string, price: int, u: Id, it: string)
    ensures QuantityOf(Purchased(t, userId, item, price).inventory, userId, item) ==
      Some(match QuantityOf(t.inventory, userId, item) case None => 1 case Some(n) => n + 1)
    ensures (u, it) != (userId, item) ==>
      QuantityOf(Purchased(t, userId, item, price).inventory, u, it) == QuantityOf(t.inventory, u, it)
  {
    QuantityAfterUpsert(t.inventory, userId, item, 1);
    if (u, it) != (userId, item) {
      OtherLinesAfterUpsert(t.inventory, userId, item, 1, u, it);
    }
  }

  /** On success the item is in the catalog, the buyer exists, and the ledger is untouched. */
  lemma PurchaseEffect(t: Tables, userId: Id, itemName: string, faults: map<PurchaseStep, StoreError>)
    requires PurchaseOutcome(t, userId, itemName, faults).0.None?
    ensures itemName in Catalog.Names && FindById(t.users, userId).Some?
    ensures PurchaseOutcome(t, userId, itemName, faults).1 == Purchased(t, userId, itemName, Catalog.Items[itemName].price)
    ensures PurchaseOutcome(t, userId, itemName, faults).1.transactions == t.transactions
  {
    PurchaseSucceedsIff(t, userId, itemName, faults);
  }

  /** A successful purchase removes exactly the price from the sum of all balances. */
  lemma PurchaseSpendsPrice(t: Tables, userId: Id, itemName: string, faults: map<PurchaseStep, StoreError>)
    requires UniqueIds(t.users) && PurchaseOutcome(t, userId, itemName, faults).0.None?
    ensures TotalCoins(PurchaseOutcome(t, userId, itemName, faults).1.users) == TotalCoins(t.users) - Catalog.Items[itemName].price
  {
    PurchaseSucceedsIff(t, userId, itemName, faults);
    TotalAfterCredit(t.users, userId, Debit(Catalog.Items[itemName].price));
  }

  /** A purchase keeps the store invariant; in particular the buyer ends with coins - price >= 0. */
  lemma PurchaseKeepsInvariant(t: Tables, userId: Id, itemName: string, faults: map<PurchaseStep, StoreError>)
    requires Invariant(t)
    ensures Invariant(PurchaseOutcome(t, userId, itemName, faults).1)
  {
    PurchaseSucceedsIff(t, userId, itemName, faults);
    if PurchaseOutcome(t, userId, itemName, faults).0.None? {
      var price := Catalog.Items[itemName].price;
      CreditKeepsNonNegative(t.users, userId, Debit(price));
      CreditKeepsUniqueness(t.users, userId, Debit(price));
      UpsertKeepsUniqueKeys(t.inventory, userId, itemName, 1);
    }
  }

  /** Buying the same item twice, from no line, leaves one line of quantity 2. */
  lemma TwoPurchasesStack(t: Tables, userId: Id, itemName: string)
    requires Invariant(t) && QuantityOf(t.inventory, userId, itemName).None?
    requires PurchaseOutcome(t, userId, itemName, map[]).0.None?
    requires PurchaseOutcome(PurchaseOutcome(t, userId, itemName, map[]).1, userId, itemName, map[]).0.None?
    ensures var after := PurchaseOutcome(PurchaseOutcome(t, userId, itemName, map[]).1, userId, itemName, map[]).1;
      QuantityOf(after.inventory, userId, itemName) == Some(2) && UniqueKeys(after.inventory)
  {
    var once := PurchaseOutcome(t, userId, itemName, map[]).1;
    PurchaseEffect(t, userId, itemName, map[]);
    PurchaseEffect(once, userId, itemName, map[]);
    PurchasedInventory(t, userId, itemName, Catalog.Items[itemName].price, userId, itemName);
    PurchasedInventory(once, userId, itemName, Catalog.Items[itemName].price, userId, itemName);
    PurchaseKeepsInvariant(t, userId, itemName, map[]);
    PurchaseKeepsInvariant(once, userId, itemName, map[]);
  }
}
