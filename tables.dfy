/**
 * The relational store as values: the users, transactions and inventory tables, each a
 * sequence of rows in insertion order, with the queries and write statements the
 * repositories issue and their properties.
 */
module Tables {
  import opened Wrappers
  import opened Model

  /** A row of the transactions table (the ledger); `created_at` is not modelled. */
  datatype LedgerEntry = LedgerEntry(from: Id, to: Id, amount: int)

  /** A row of the inventory table. */
  datatype InventoryRow = InventoryRow(userId: Id, itemName: string, quantity: int)

  datatype Tables = Tables(users: seq<User>, transactions: seq<LedgerEntry>, inventory: seq<InventoryRow>)

  /** The write statements the engines send to the store. */
  datatype Mutation =
    | AddCoins(id: Id, delta: int)
    | InsertTransfer(entry: LedgerEntry)
    | UpsertInventory(userId: Id, item: string, quantity: int)

  // ---------------------------------------------------------------------------------------
  // Constraints of the store
  // ---------------------------------------------------------------------------------------

  ghost predicate UniqueIds(users: seq<User>)
  {
    forall i, j :: 0 <= i < j < |users| ==> users[i].id != users[j].id
  }

  ghost predicate UniqueUsernames(users: seq<User>)
  {
    forall i, j :: 0 <= i < j < |users| ==> users[i].username != users[j].username
  }

  ghost predicate NonNegative(users: seq<User>)
  {
    forall i :: 0 <= i < |users| ==> users[i].coins >= 0
  }

  ghost predicate PositiveAmounts(ledger: seq<LedgerEntry>)
  {
    forall k :: 0 <= k < |ledger| ==> ledger[k].amount > 0
  }

  function Key(row: InventoryRow): (Id, string)
  {
    (row.userId, row.itemName)
  }

  /** The (user, item) pairs that have an inventory line. */
  function Keys(inv: seq<InventoryRow>): set<(Id, string)>
  {
    if inv == [] then {} else {Key(inv[0])} + Keys(inv[1..])
  }

  /** At most one inventory line per (user, item). */
  ghost predicate UniqueKeys(inv: seq<InventoryRow>)
  {
    inv == [] || (Key(inv[0]) !in Keys(inv[1..]) && UniqueKeys(inv[1..]))
  }

  /** What the system keeps true of its store between requests. */
  ghost predicate Invariant(t: Tables)
  {
    && UniqueIds(t.users)
    && UniqueUsernames(t.users)
    && NonNegative(t.users)
    && PositiveAmounts(t.transactions)
    && UniqueKeys(t.inventory)
  }

  // ---------------------------------------------------------------------------------------
  // Users table
  // ---------------------------------------------------------------------------------------

  /** SELECT ... FROM users WHERE id = $1, first matching row. */
  function FindById(users: seq<User>, id: Id): (r: Option<User>)
    ensures r.Some? <==> exists i :: 0 <= i < |users| && users[i].id == id
    ensures r.Some? ==> r.value in users && r.value.id == id
  {
    if users == [] then None
    else if users[0].id == id then Some(users[0])
    else
      var r := FindById(users[1..], id);
      assert forall i :: 1 <= i < |users| ==> users[i] == users[1..][i - 1];
      r
  }

  /** SELECT ... FROM users WHERE username = $1, first matching row. */
  function FindByUsername(users: seq<User>, username: string): (r: Option<User>)
    ensures r.Some? <==> exists i :: 0 <= i < |users| && users[i].username == username
    ensures r.Some? ==> r.value in users && r.value.username == username
  {
    if users == [] then None
    else if users[0].username == username then Some(users[0])
    else
      var r := FindByUsername(users[1..], username);
      assert forall i :: 1 <= i < |users| ==> users[i] == users[1..][i - 1];
      r
  }

  /** UPDATE users SET coins = coins + delta WHERE id = $id. */
  function Credit(users: seq<User>, id: Id, delta: int): (r: seq<User>)
    ensures |r| == |users|
    ensures forall i :: 0 <= i < |users| ==>
      r[i].id == users[i].id && r[i].username == users[i].username && r[i].passwordHash == users[i].passwordHash
    ensures forall i :: 0 <= i < |users| ==> r[i].coins == users[i].coins + (if users[i].id == id then delta else 0)
  {
    if users == [] then []
    else
      var head := if users[0].id == id then users[0].(coins := users[0].coins + delta) else users[0];
      [head] + Credit(users[1..], id, delta)
  }

  /** The change of balance that a debit of `amount` makes, as a delta for Credit. */
  function Debit(amount: int): int
  {
    -amount
  }

  /** The sum of all balances. */
  function TotalCoins(users: seq<User>): int
  {
    if users == [] then 0 else users[0].coins + TotalCoins(users[1..])
  }

  lemma {:induction false} FindUnique(users: seq<User>, i: nat)
    requires UniqueIds(users) && i < |users|
    ensures FindById(users, users[i].id) == Some(users[i])
  {
    if i > 0 {
      assert users[0].id != users[i].id;
      assert UniqueIds(users[1..]) by {
        forall a, b | 0 <= a < b < |users[1..]| ensures users[1..][a].id != users[1..][b].id {
          assert users[1..][a] == users[a + 1] && users[1..][b] == users[b + 1];
        }
      }
      FindUnique(users[1..], i - 1);
    }
  }

  lemma {:induction false} CreditAbsent(users: seq<User>, id: Id, delta: int)
    requires FindById(users, id).None?
    ensures Credit(users, id, delta) == users
  {
    if users != [] {
      CreditAbsent(users[1..], id, delta);
    }
  }

  /** A credit of `delta` to a present account changes the total by `delta`, an absent one by nothing. */
  lemma {:induction false} TotalAfterCredit(users: seq<User>, id: Id, delta: int)
    requires UniqueIds(users)
    ensures TotalCoins(Credit(users, id, delta)) == TotalCoins(users) + (if FindById(users, id).Some? then delta else 0)
  {
    if users != [] {
      var rest := users[1..];
      assert Credit(users, id, delta)[1..] == Credit(rest, id, delta);
      if users[0].id == id {
        forall i | 0 <= i < |rest| ensures rest[i].id != id {
          assert rest[i] == users[i + 1];
        }
        CreditAbsent(rest, id, delta);
      } else {
        assert UniqueIds(rest) by {
          forall a, b | 0 <= a < b < |rest| ensures rest[a].id != rest[b].id {
            assert rest[a] == users[a + 1] && rest[b] == users[b + 1];
          }
        }
        TotalAfterCredit(rest, id, delta);
      }
    }
  }

  /** After a credit, every lookup by id sees the same account, with `delta` more coins if it is the credited one. */
  lemma {:induction false} FindAfterCredit(users: seq<User>, id: Id, delta: int, x: Id)
    ensures FindById(Credit(users, id, delta), x).Some? == FindById(users, x).Some?
    ensures FindById(users, x).Some? ==>
      FindById(Credit(users, id, delta), x).value ==
        var u := FindById(users, x).value; u.(coins := u.coins + if x == id then delta else 0)
  {
    if users != [] {
      var c := Credit(users, id, delta);
      assert c[0].id == users[0].id;
      if users[0].id != x {
        assert c[1..] == Credit(users[1..], id, delta);
        FindAfterCredit(users[1..], id, delta, x);
      }
    }
  }

  lemma CreditKeepsUniqueness(users: seq<User>, id: Id, delta: int)
    requires UniqueIds(users) && UniqueUsernames(users)
    ensures UniqueIds(Credit(users, id, delta)) && UniqueUsernames(Credit(users, id, delta))
  {
  }

  /** A credit keeps every balance non-negative when the credited account can afford it. */
  lemma CreditKeepsNonNegative(users: seq<User>, id: Id, delta: int)
    requires UniqueIds(users) && NonNegative(users)
    requires FindById(users, id).Some? ==> FindById(users, id).value.coins + delta >= 0
    ensures NonNegative(Credit(users, id, delta))
  {
    var r := Credit(users, id, delta);
    forall i | 0 <= i < |r| ensures r[i].coins >= 0 {
      if users[i].id == id {
        FindUnique(users, i);
      }
    }
  }

  // ---------------------------------------------------------------------------------------
  // Inventory table
  // ---------------------------------------------------------------------------------------

  /** INSERT INTO inventory ... ON CONFLICT (user_id, item_name) DO UPDATE SET quantity = quantity + excluded.quantity. */
  function Upsert(inv: seq<InventoryRow>, userId: Id, item: string, quantity: int): seq<InventoryRow>
  {
    if inv == [] then [InventoryRow(userId, item, quantity)]
    else if Key(inv[0]) == (userId, item) then [inv[0].(quantity := inv[0].quantity + quantity)] + inv[1..]
    else [inv[0]] + Upsert(inv[1..], userId, item, quantity)
  }

  /** The quantity on the (user, item) line, if there is one. */
  function QuantityOf(inv: seq<InventoryRow>, userId: Id, item: string): Option<int>
  {
    if inv == [] then None
    else if Key(inv[0]) == (userId, item) then Some(inv[0].quantity)
    else QuantityOf(inv[1..], userId, item)
  }

  /** SELECT item_name, quantity FROM inventory WHERE user_id = $1. */
  function InventoryOf(inv: seq<InventoryRow>, userId: Id): (r: seq<InventoryItem>)
    ensures |r| <= |inv|
    ensures (forall k :: 0 <= k < |inv| ==> inv[k].userId != userId) ==> r == []
  {
    if inv == [] then []
    else
      var rest := InventoryOf(inv[1..], userId);
      assert forall k :: 1 <= k < |inv| ==> inv[k] == inv[1..][k - 1];
      if inv[0].userId == userId then [InventoryItem(inv[0].itemName, inv[0].quantity)] + rest else rest
  }

  /** An upsert adds `quantity` to the line, creating it with `quantity` when it was missing. */
  lemma {:induction false} QuantityAfterUpsert(inv: seq<InventoryRow>, userId: Id, item: string, quantity: int)
    ensures QuantityOf(Upsert(inv, userId, item, quantity), userId, item) ==
      Some(match QuantityOf(inv, userId, item) case None => quantity case Some(n) => n + quantity)
  {
    if inv != [] && Key(inv[0]) != (userId, item) {
      QuantityAfterUpsert(inv[1..], userId, item, quantity);
    }
  }

  /** An upsert leaves every other (user, item) line as it was. */
  lemma {:induction false} OtherLinesAfterUpsert(inv: seq<InventoryRow>, userId: Id, item: string, quantity: int, u: Id, it: string)
    requires (u, it) != (userId, item)
    ensures QuantityOf(Upsert(inv, userId, item, quantity), u, it) == QuantityOf(inv, u, it)
  {
    if inv != [] && Key(inv[0]) != (userId, item) {
      OtherLinesAfterUpsert(inv[1..], userId, item, quantity, u, it);
    }
  }

  lemma {:induction false} KeysAfterUpsert(inv: seq<InventoryRow>, userId: Id, item: string, quantity: int)
    ensures Keys(Upsert(inv, userId, item, quantity)) == Keys(inv) + {(userId, item)}
  {
    var r := Upsert(inv, userId, item, quantity);
    if inv == [] {
      assert r[1..] == [];
    } else if Key(inv[0]) == (userId, item) {
      assert r[1..] == inv[1..];
    } else {
      assert r[1..] == Upsert(inv[1..], userId, item, quantity);
      KeysAfterUpsert(inv[1..], userId, item, quantity);
    }
  }

  /** An upsert never creates a second line for the same (user, item). */
  lemma {:induction false} UpsertKeepsUniqueKeys(inv: seq<InventoryRow>, userId: Id, item: string, quantity: int)
    requires UniqueKeys(inv)
    ensures UniqueKeys(Upsert(inv, userId, item, quantity))
  {
    var r := Upsert(inv, userId, item, quantity);
    if inv == [] {
      assert r[1..] == [];
    } else if Key(inv[0]) == (userId, item) {
      assert r[1..] == inv[1..];
    } else {
      assert r[1..] == Upsert(inv[1..], userId, item, quantity);
      KeysAfterUpsert(inv[1..], userId, item, quantity);
      UpsertKeepsUniqueKeys(inv[1..], userId, item, quantity);
    }
  }

  /** The user's inventory lists exactly that user's lines. */
  lemma {:induction false} InventoryExactly(inv: seq<InventoryRow>, userId: Id, name: string, quantity: int)
    ensures InventoryItem(name, quantity) in InventoryOf(inv, userId) <==> InventoryRow(userId, name, quantity) in inv
  {
    if inv != [] {
      assert inv == [inv[0]] + inv[1..];
      InventoryExactly(inv[1..], userId, name, quantity);
    }
  }

  /** The inventory projection looks at the inventory table only. */
  lemma {:induction false} InventoryAfterUpsertOfOther(inv: seq<InventoryRow>, userId: Id, item: string, quantity: int, u: Id)
    requires u != userId
    ensures InventoryOf(Upsert(inv, userId, item, quantity), u) == InventoryOf(inv, u)
  {
    var r := Upsert(inv, userId, item, quantity);
    if inv == [] {
      assert r == [InventoryRow(userId, item, quantity)];
      assert r[1..] == [];
    } else if Key(inv[0]) == (userId, item) {
      assert r[1..] == inv[1..];
    } else {
      assert r[1..] == Upsert(inv[1..], userId, item, quantity);
      InventoryAfterUpsertOfOther(inv[1..], userId, item, quantity, u);
    }
  }

  // ---------------------------------------------------------------------------------------
  // Transactions table (the ledger) and its two history projections
  // ---------------------------------------------------------------------------------------

  /** Whether `r` is the received-history row that ledger entry `e` gives to user `id`. */
  ghost predicate ReceivedFrom(users: seq<User>, e: LedgerEntry, id: Id, r: ReceivedTransaction)
  {
    e.to == id && FindById(users, e.from).Some? && r == ReceivedTransaction(FindById(users, e.from).value.username, e.amount)
  }

  /** Whether `s` is the sent-history row that ledger entry `e` gives to user `id`. */
  ghost predicate SentBy(users: seq<User>, e: LedgerEntry, id: Id, s: SentTransaction)
  {
    e.from == id && FindById(users, e.to).Some? && s == SentTransaction(FindById(users, e.to).value.username, e.amount)
  }

  /** SELECT u.username, t.amount FROM transactions t JOIN users u ON t.from_user_id = u.id WHERE t.to_user_id = $1. */
  function ReceivedOf(users: seq<User>, ledger: seq<LedgerEntry>, id: Id): (r: seq<ReceivedTransaction>)
    ensures |r| <= |ledger|
    ensures (forall k :: 0 <= k < |ledger| ==> ledger[k].to != id) ==> r == []
  {
    if ledger == [] then []
    else
      var e := ledger[0];
      var rest := ReceivedOf(users, ledger[1..], id);
      assert forall k :: 1 <= k < |ledger| ==> ledger[k] == ledger[1..][k - 1];
      match FindById(users, e.from)
      case Some(sender) =>
        if e.to == id then [ReceivedTransaction(sender.username, e.amount)] + rest else rest
      case None => rest
  }

  /** SELECT u.username, t.amount FROM transactions t JOIN users u ON t.to_user_id = u.id WHERE t.from_user_id = $1. */
  function SentOf(users: seq<User>, ledger: seq<LedgerEntry>, id: Id): (r: seq<SentTransaction>)
    ensures |r| <= |ledger|
    ensures (forall k :: 0 <= k < |ledger| ==> ledger[k].from != id) ==> r == []
  {
    if ledger == [] then []
    else
      var e := ledger[0];
      var rest := SentOf(users, ledger[1..], id);
      assert forall k :: 1 <= k < |ledger| ==> ledger[k] == ledger[1..][k - 1];
      match FindById(users, e.to)
      case Some(recipient) =>
        if e.from == id then [SentTransaction(recipient.username, e.amount)] + rest else rest
      case None => rest
  }

  /** The received history holds exactly the rows given by entries addressed to the user. */
  lemma {:induction false} ReceivedExactly(users: seq<User>, ledger: seq<LedgerEntry>, id: Id, r: ReceivedTransaction)
    ensures r in ReceivedOf(users, ledger, id) <==> exists e :: e in ledger && ReceivedFrom(users, e, id, r)
  {
    if ledger != [] {
      var e0, rest := ledger[0], ledger[1..];
      assert ledger == [e0] + rest;
      ReceivedExactly(users, rest, id, r);
      var head := if e0.to == id && FindById(users, e0.from).Some? then [ReceivedTransaction(FindById(users, e0.from).value.username, e0.amount)] else [];
      assert ReceivedOf(users, ledger, id) == head + ReceivedOf(users, rest, id);
      if r in ReceivedOf(users, ledger, id) {
        if r in head {
          assert ReceivedFrom(users, e0, id, r);
        } else {
          var e :| e in rest && ReceivedFrom(users, e, id, r);
          assert e in ledger;
        }
      }
      if exists e :: e in ledger && ReceivedFrom(users, e, id, r) {
        var e :| e in ledger && ReceivedFrom(users, e, id, r);
        if e == e0 {
          assert r in head;
        } else {
          assert e in rest;
        }
      }
    }
  }

  /** The sent history holds exactly the rows given by entries the user paid. */
  lemma {:induction false} SentExactly(users: seq<User>, ledger: seq<LedgerEntry>, id: Id, s: SentTransaction)
    ensures s in SentOf(users, ledger, id) <==> exists e :: e in ledger && SentBy(users, e, id, s)
  {
    if ledger != [] {
      var e0, rest := ledger[0], ledger[1..];
      assert ledger == [e0] + rest;
      SentExactly(users, rest, id, s);
      var head := if e0.from == id && FindById(users, e0.to).Some? then [SentTransaction(FindById(users, e0.to).value.username, e0.amount)] else [];
      assert SentOf(users, ledger, id) == head + SentOf(users, rest, id);
      if s in SentOf(users, ledger, id) {
        if s in head {
          assert SentBy(users, e0, id, s);
        } else {
          var e :| e in rest && SentBy(users, e, id, s);
          assert e in ledger;
        }
      }
      if exists e :: e in ledger && SentBy(users, e, id, s) {
        var e :| e in ledger && SentBy(users, e, id, s);
        if e == e0 {
          assert s in head;
        } else {
          assert e in rest;
        }
      }
    }
  }

  /** Appending an entry extends the received history by at most that entry's row, at its end. */
  lemma {:induction false} ReceivedAfterAppend(users: seq<User>, ledger: seq<LedgerEntry>, e: LedgerEntry, id: Id)
    ensures ReceivedOf(users, ledger + [e], id) ==
      ReceivedOf(users, ledger, id) +
        (if e.to == id && FindById(users, e.from).Some? then [ReceivedTransaction(FindById(users, e.from).value.username, e.amount)] else [])
  {
    if ledger != [] {
      assert (ledger + [e])[1..] == ledger[1..] + [e];
      ReceivedAfterAppend(users, ledger[1..], e, id);
    } else {
      assert ([] + [e])[1..] == [];
    }
  }

  /** Appending an entry extends the sent history by at most that entry's row, at its end. */
  lemma {:induction false} SentAfterAppend(users: seq<User>, ledger: seq<LedgerEntry>, e: LedgerEntry, id: Id)
    ensures SentOf(users, ledger + [e], id) ==
      SentOf(users, ledger, id) +
        (if e.from == id && FindById(users, e.to).Some? then [SentTransaction(FindById(users, e.to).value.username, e.amount)] else [])
  {
    if ledger != [] {
      assert (ledger + [e])[1..] == ledger[1..] + [e];
      SentAfterAppend(users, ledger[1..], e, id);
    } else {
      assert ([] + [e])[1..] == [];
    }
  }

  /** The histories join on id and read only usernames, which a credit does not change. */
  lemma {:induction false} HistoryAfterCredit(users: seq<User>, ledger: seq<LedgerEntry>, x: Id, delta: int, id: Id)
    ensures ReceivedOf(Credit(users, x, delta), ledger, id) == ReceivedOf(users, ledger, id)
    ensures SentOf(Credit(users, x, delta), ledger, id) == SentOf(users, ledger, id)
  {
    if ledger != [] {
      FindAfterCredit(users, x, delta, ledger[0].from);
      FindAfterCredit(users, x, delta, ledger[0].to);
      HistoryAfterCredit(users, ledger[1..], x, delta, id);
    }
  }

  // ---------------------------------------------------------------------------------------
  // Write statements
  // ---------------------------------------------------------------------------------------

  /** The effect of one write statement on the tables. */
  function Apply(t: Tables, m: Mutation): Tables
  {
    match m
    case AddCoins(id, delta) => t.(users := Credit(t.users, id, delta))
    case InsertTransfer(entry) => t.(transactions := t.transactions + [entry])
    case UpsertInventory(userId, item, quantity) => t.(inventory := Upsert(t.inventory, userId, item, quantity))
  }
}
