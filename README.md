# Coin store ledger, modelled in Dafny

This project models the coin-ledger core of a virtual-coin wallet. Each user has an account with
an integer coin balance. Users can send coins to each other and spend them on items from a fixed
catalog. The model covers:

- the store, as three tables: users, the append-only ledger of transfers (`transactions`) and the
  per-user inventory;
- the transaction scopes in which the two writing operations run;
- the two writing operations: the transfer (`TransferCoins`) and the purchase (`ShopService.BuyItem`);
- the read projections: transfer history, inventory, and the info aggregation;
- the account lookups and the first-login account creation;
- the HTTP handlers that turn each outcome into a status code and a message.

Layout, one module per source file, plus three shared modules:

| module | file | form |
|---|---|---|
| `Wrappers` | wrappers.dfy | `Option` and `Result` |
| `Model` | model.dfy | the value types: user, responses, requests, sentinel errors, replies |
| `Catalog` | catalog.dfy | the constant item map |
| `Tables` | tables.dfy | the table rows, and pure functions for the SQL each statement runs |
| `Store` | store.dfy | class `Database` (the three tables as fields) and class `Tx` (a staged copy, written back by `Commit`, dropped by `Rollback`) |
| `UserRepo` | user_repo.dfy | `CreateUser` and `UpdateUserCoinsTx` as methods, the two lookups as functions |
| `InventoryRepo` | inventory_repo.dfy | the in-transaction upsert, and the scan loop of `GetUserInventory` |
| `TransactionRepo` | transaction_repo.dfy | `TransferCoins`: begin, read the balance, run a loop over the three batched statements, commit. `GetTransactionHistory`: two scan loops |
| `ShopService` | shop_service.dfy | `BuyItem`, step by step |
| `CoinHandler`, `ShopHandler`, `AuthHandler`, `InfoHandler` | *_handler.dfy | the handlers' decision chains |

Store failures are inputs. A primitive takes `fault: Option<StoreError>`. A composite operation
takes a map from its failing steps (a per-operation datatype) to the error that step returns.
A read of a result set takes `Store.QueryFaults`: the query's failure, and a map from the
`Next` and `Scan` calls of each row to their errors. The repositories never consult
`rows.Err()`, so a failed `Next` ends a read early and the rows read so far come back as a
success (`Store.ReadRows`).

Each state-changing method is proved against a function of the old state:
- `TransferCoins` against `TransferOutcome`;
- `BuyItem` against `PurchaseOutcome`;
- `SendCoins` against `SendOutcome`;
- `Login` against `LoginOutcome`.

The promised properties are then lemmas about those functions: atomicity, no overdraft,
conservation, the per-account effect, and preservation of `Tables.Invariant`. `Tables.Invariant`
means:
- account ids are unique;
- usernames are unique;
- balances are non-negative;
- ledger amounts are positive;
- there is at most one inventory line per (user, item).

## Model

| member | source | states |
|---|---|---|
| Catalog.Lookup | internal/model/item.go:8-19 | a name is found exactly when it is one of the ten catalog names; a found entry has a positive price and an empty `Name` |
| Catalog.CatalogHoldsExactlyTenNames | internal/model/item.go:8-19 | the catalog's keys are exactly t-shirt, cup, book, pen, powerbank, hoody, umbrella, socks, wallet, pink-hoody |
| Catalog.PricesArePositive | internal/model/item.go:9-18 | every catalog price is strictly positive |
| Catalog.EntryNamesAreEmpty | internal/model/item.go:3-6 | entries set only the price; their `Name` field is empty, so identity is the map key |
| Catalog.SomePrices | internal/model/item.go:12-18 | hoody costs 300, pen 10, pink-hoody 500 |
| Catalog.UnknownNamesAreAbsent | internal/model/item.go:8-19 | "unknown_item" and "sword" are not found |
| Model.Message | internal/model/errors.go:5-12 | reference definition of `err.Error()`: the sentinel errors' fixed texts, and a store error's own message; it gives the 400 bodies of internal/handler/coin.go:38-40 |
| Tables.FindById | internal/repository/user_repo.go:62-66 | a user is found exactly when some row has that id; the row returned is a stored row with that id |
| Tables.FindByUsername | internal/repository/user_repo.go:44-48 | a user is found exactly when some row has that username; the row returned is a stored row with that username |
| Tables.Credit | internal/repository/user_repo.go:74-80 | `coins = coins + delta` on exactly the rows with that id; ids, usernames and hashes are untouched; no sign check |
| Tables.Upsert | internal/repository/inventory_repo.go:53-58 | reference definition of the upsert statement: the (user, item) line is created with `quantity`, or `quantity` is added to it; its effect is stated by `QuantityAfterUpsert`, `OtherLinesAfterUpsert` and `UpsertKeepsUniqueKeys` |
| Tables.TotalAfterCredit | internal/repository/user_repo.go:75-78 | with unique ids, a credit changes the sum of all balances by `delta` if the account exists, and by nothing otherwise |
| Tables.FindAfterCredit | internal/repository/user_repo.go:75-78 | after a credit every account is still found; only the credited one has `delta` more coins |
| Tables.CreditKeepsUniqueness | internal/repository/user_repo.go:75-78 | a credit keeps ids and usernames unique |
| Tables.CreditKeepsNonNegative | internal/repository/user_repo.go:75-78 | a credit keeps every balance non-negative when the credited account can afford it |
| Tables.QuantityAfterUpsert | internal/repository/inventory_repo.go:53-58 | after the upsert, the (user, item) quantity is the given quantity if there was no line, or the old quantity plus the given one |
| Tables.OtherLinesAfterUpsert | internal/repository/inventory_repo.go:53-58 | the upsert leaves every other (user, item) line unchanged |
| Tables.UpsertKeepsUniqueKeys | internal/repository/inventory_repo.go:56-57 | the upsert keeps at most one line per (user, item) |
| Tables.InventoryOf | internal/repository/inventory_repo.go:29-48 | the projection is no longer than the table, and is empty when no row belongs to the user |
| Tables.InventoryExactly | internal/repository/inventory_repo.go:29-48 | (name, quantity) is in a user's inventory exactly when the table has the row (user, name, quantity) |
| Tables.InventoryAfterUpsertOfOther | internal/repository/inventory_repo.go:53-58 | an upsert for one user leaves every other user's inventory unchanged |
| Tables.ReceivedOf | internal/repository/transaction_repo.go:75-100 | the received projection is no longer than the ledger, and is empty when nothing was paid to the user |
| Tables.SentOf | internal/repository/transaction_repo.go:102-122 | the sent projection is no longer than the ledger, and is empty when the user paid nothing |
| Tables.ReceivedExactly | internal/repository/transaction_repo.go:80-100 | a row is in `Received` exactly when some ledger entry pays the user and carries that sender's username and amount |
| Tables.SentExactly | internal/repository/transaction_repo.go:102-122 | a row is in `Sent` exactly when some ledger entry is paid by the user and carries that recipient's username and amount |
| Tables.ReceivedAfterAppend | internal/repository/transaction_repo.go:80-100 | appending a ledger entry adds at most one received row, at the end |
| Tables.SentAfterAppend | internal/repository/transaction_repo.go:102-122 | appending a ledger entry adds at most one sent row, at the end |
| Tables.HistoryAfterCredit | internal/repository/transaction_repo.go:80-122 | balance changes do not change any history: the join reads only ids and usernames |
| Tables.Apply | internal/repository/transaction_repo.go:49-51 | reference effect of one write statement: a balance update credits the id by the delta, a ledger insert appends its row, an inventory upsert runs `Upsert` |
| Store.Database.BeginTx | internal/repository/pool_wrapper.go:28-30 | either a fresh, open scope over a copy of the current tables, or the store's error and no scope |
| Store.Tx.Exec | internal/repository/transaction_repo.go:55-61 | an in-scope statement changes only the staged copy; a failing or closed scope changes nothing |
| Store.Tx.Commit | internal/repository/transaction_repo.go:65-68 | the staged copy becomes the database; on failure the database keeps its old contents |
| Store.Tx.Rollback | internal/repository/transaction_repo.go:35 | the scope closes and its staged writes are dropped |
| Store.FirstStop | internal/repository/inventory_repo.go:41-47 | the first row at which `Next` or `Scan` fails: every earlier row is clear, and the row returned is a failing one unless it is the end of the result set |
| Store.ReadRows | internal/repository/inventory_repo.go:29-48 | a failed query is returned as it is; a success is always a prefix of the result set, and it is shorter only when a `Next` failed at the row after it, because `rows.Err()` is never consulted |
| Store.ReadStopsAtFirstFailure | internal/repository/inventory_repo.go:41-48 | the first failing call decides: a failed `Scan` of row k is the error returned; a failed `Next` before row k returns exactly the first k rows and no error |
| Store.ReadIsCompleteIff | internal/repository/inventory_repo.go:29-48 | the whole result set comes back exactly when neither the query nor any `Next` or `Scan` before its end fails |
| UserRepo.CreateUser | internal/repository/user_repo.go:28-40 | inserts the given username, hash and coins, and sets the id to the generated one; on a store error or a uniqueness violation nothing is inserted and the id stays as it was |
| UserRepo.InsertKeepsInvariant | internal/repository/user_repo.go:29-34 | inserting a non-conflicting account with a non-negative balance keeps the invariant and adds its coins to the total |
| UserRepo.GetUserByUsername | internal/repository/user_repo.go:42-58 | a missing username, or the driver's own "no rows" error, gives (nil, nil); any other store error gives (nil, err); a found user is a stored row with that username |
| UserRepo.GetUserByID | internal/repository/user_repo.go:60-68 | the user pointer is never nil; the error is absent exactly when a row has that id; a missing row gives "no rows"; a store error is passed through |
| UserRepo.BeginTx | internal/repository/user_repo.go:70-72 | the error is propagated and no scope is returned, or a fresh, open scope over the current tables |
| UserRepo.UpdateUserCoinsTx | internal/repository/user_repo.go:74-80 | stages `coins + delta` for exactly that id; an Exec error is returned with nothing staged |
| InventoryRepo.AddToInventoryTx | internal/repository/inventory_repo.go:52-61 | stages the upsert-with-increment of the (user, item) line; an Exec error is returned with nothing staged |
| InventoryRepo.GetUserInventory | internal/repository/inventory_repo.go:28-49 | the loop `for rows.Next() { Scan; append }` returns `ReadRows` of the user's (item, quantity) projection: the query's or the first failing scan's error, or the rows read before the first failing `Next` |
| InventoryRepo.InventoryReadIsComplete | internal/repository/inventory_repo.go:28-49 | when no call fails before the end of the result set, the read returns the whole projection, so (name, quantity) is listed exactly when the table has that row for the user |
| InventoryRepo.FailedNextDropsInventoryLines | internal/repository/inventory_repo.go:41-48 | with two lines and a failing `Next` before the second, the read succeeds with only the first line |
| InventoryRepo.TwoPurchasesGiveOneLine | internal/repository/inventory_repo.go:54-57 | two upserts of one unit on an absent line leave a single line of quantity 2 |
| TransactionRepo.TransferCoins | internal/repository/transaction_repo.go:29-71 | the returned error and the new tables are those of `TransferOutcome` on the old tables: begin, balance read, strict `<` guard, the three statements in queue order, commit |
| TransactionRepo.TransferOutcome | internal/repository/transaction_repo.go:29-71 | reference definition of the transfer: begin, balance read, strict `<` guard, the batch, commit; any error leaves the tables unchanged; its properties are the lemmas below |
| TransactionRepo.LockedBalance | internal/repository/transaction_repo.go:37-42 | reference definition of the balance read: the read's error, "no rows" for a missing payer, or the payer's coins |
| TransactionRepo.TransferBatch | internal/repository/transaction_repo.go:48-51 | reference definition of the queued statements: debit the payer, credit the payee, append the ledger row, in that order |
| TransactionRepo.RunBatch | internal/repository/transaction_repo.go:53-61 | reference definition of the Exec loop: statements in order, stopping at the first failing one; `BatchRuns` states its result |
| TransactionRepo.Transferred | internal/repository/transaction_repo.go:49-51 | reference effect of a transfer: the payer debited by `amount`, the payee credited by `amount`, one ledger row (from, to, amount) appended; stated per account by `TransferredBalances` |
| TransactionRepo.BatchRuns | internal/repository/transaction_repo.go:48-61 | the batch stops at its first failing statement, or debits, credits and appends the ledger row in that order |
| TransactionRepo.TransferSucceedsIff | internal/repository/transaction_repo.go:29-71 | a transfer succeeds exactly when no store call fails, the payer exists and has at least `amount`; it then has the reference effect |
| TransactionRepo.TransferFailureChangesNothing | internal/repository/transaction_repo.go:35 | every failed transfer leaves balances, ledger and inventory exactly as before |
| TransactionRepo.TransferReturnsStoreError | internal/repository/transaction_repo.go:30-42 | a begin or balance-read error is returned unchanged; a missing payer gives "no rows"; any failing call makes the transfer fail |
| TransactionRepo.TransferReturnsBatchError | internal/repository/transaction_repo.go:53-68 | past the balance check, the first failing Exec of the batch, or else a failing commit, is the error returned, unchanged |
| TransactionRepo.TransferRefusesOverdraft | internal/repository/transaction_repo.go:43-46 | a balance below `amount` gives `ErrInsufficientFunds` and no change |
| TransactionRepo.ExactBalanceIsAccepted | internal/repository/transaction_repo.go:43 | a balance equal to `amount` is accepted for every payer; a payer distinct from the payee is left at 0 (a self-transfer keeps its balance) |
| TransactionRepo.TransferredBalances | internal/repository/transaction_repo.go:49-50 | each account's balance changes by `+amount` if it is the payee and `-amount` if it is the payer; every other field and account is unchanged |
| TransactionRepo.SelfTransferKeepsBalances | internal/repository/transaction_repo.go:49-51 | a transfer to oneself changes no balance and still appends one ledger row |
| TransactionRepo.TransferEffect | internal/repository/transaction_repo.go:48-70 | on success the payer exists, exactly the row (from, to, amount) is appended to the ledger, and the inventory is untouched |
| TransactionRepo.TransferConservesCoins | internal/repository/transaction_repo.go:49-50 | with unique ids and an existing payee, a successful transfer leaves the sum of all balances unchanged |
| TransactionRepo.TransferKeepsInvariant | internal/repository/transaction_repo.go:43-51 | with `amount > 0` every outcome keeps the invariant; in particular no balance goes negative |
| TransactionRepo.TransferShowsInHistory | internal/repository/transaction_repo.go:51 | after a success the payee's received history gains the transfer's row at the end; the payer's sent history gains it too when the payee exists, since the sent query joins on the recipient |
| TransactionRepo.NegativeAmountDrainsPayee | internal/repository/transaction_repo.go:43-50 | the engine alone has no `amount > 0` guard: a transfer of -5 succeeds and leaves the payee at -5 |
| TransactionRepo.MissingPayeeLosesCoins | internal/repository/transaction_repo.go:49-51 | the engine alone does not check the payee: a transfer to a missing id debits the payer, credits nobody and lowers the total |
| TransactionRepo.HistoryOf | internal/repository/transaction_repo.go:75-122 | reference definition of the history: the received and the sent projections; their rows are stated by `ReceivedExactly` and `SentExactly` |
| TransactionRepo.HistoryRead | internal/repository/transaction_repo.go:74-125 | the received read, then the sent read: a success holds a prefix of each projection; a failed received read is the error returned |
| TransactionRepo.GetTransactionHistory | internal/repository/transaction_repo.go:74-125 | the two loops return `HistoryRead` of the current tables; nothing is written |
| TransactionRepo.HistoryReadIsCompleteIff | internal/repository/transaction_repo.go:80-122 | both full projections come back exactly when no call fails before the end of either result set |
| TransactionRepo.SentQueryErrorIsReturned | internal/repository/transaction_repo.go:102-111 | after a clean received read, a failing sent query is the error returned, and no history |
| TransactionRepo.UntouchedUserHasEmptyHistory | internal/repository/transaction_repo.go:75-78 | a user with no ledger entries has two empty projections, and a read without failures returns them with no error |
| ShopService.BuyItem | internal/service/shop.go:32-71 | the returned error and the new tables are those of `PurchaseOutcome` on the old tables: catalog lookup, buyer read, strict `<` guard, then begin, debit, upsert, commit |
| ShopService.PurchaseOutcome | internal/service/shop.go:32-71 | reference definition of the purchase: catalog lookup, buyer read, strict `<` guard, begin, debit, upsert, commit; any error leaves the tables unchanged; its properties are the lemmas below |
| ShopService.Purchased | internal/service/shop.go:55-63 | reference effect of a purchase: the buyer debited by the price and the (buyer, item) line upserted by one; stated by `PurchasedBalances` and `PurchasedInventory` |
| ShopService.PurchaseSucceedsIff | internal/service/shop.go:32-71 | a purchase succeeds exactly when the item exists, no store call fails, the buyer exists and has at least the price; it then has the reference effect |
| ShopService.UnknownItemIsRefused | internal/service/shop.go:33-36 | an unknown item gives `ErrItemNotFound` before any store call |
| ShopService.PurchaseRefusesOverdraft | internal/service/shop.go:44-46 | a snapshot balance below the price gives `ErrInsufficientFunds` and no change |
| ShopService.PurchaseFailureChangesNothing | internal/service/shop.go:38-68 | every failed purchase leaves all tables unchanged; a missing buyer gives "no rows"; a lookup error is returned unchanged |
| ShopService.PurchaseReturnsStoreError | internal/service/shop.go:48-68 | past the balance check, the first failing call of begin, debit, upsert and commit is the error returned, unchanged |
| ShopService.PurchasedBalances | internal/service/shop.go:55 | the buyer loses exactly the price; every other account is unchanged |
| ShopService.PurchasedInventory | internal/service/shop.go:60 | the (buyer, item) quantity rises by one, or the line is created at one; every other line is unchanged |
| ShopService.PurchaseEffect | internal/service/shop.go:32-71 | on success the item is in the catalog, the buyer exists, and the ledger is untouched |
| ShopService.PurchaseSpendsPrice | internal/service/shop.go:44-55 | with unique ids, a successful purchase lowers the sum of all balances by exactly the price |
| ShopService.PurchaseKeepsInvariant | internal/service/shop.go:38-60 | every purchase outcome keeps the invariant; in particular coins − price ≥ 0 |
| ShopService.TwoPurchasesStack | internal/service/shop.go:60 | buying the same item twice from no line leaves one line of quantity 2 |
| CoinHandler.SendCoins | internal/handler/coin.go:18-43 | the reply and the new tables are those of `SendOutcome` on the old tables |
| CoinHandler.SendOutcome | internal/handler/coin.go:18-43 | reference definition of the handler: bind, amount guard, recipient lookup, transfer by the recipient's id, and the reply for each outcome; its properties are the lemmas below |
| CoinHandler.SendRefusesBadRequests | internal/handler/coin.go:20-26 | a body that does not decode gives 400 "invalid request"; `amount <= 0` gives 400 "amount must be positive"; nothing changes |
| CoinHandler.SendNeedsRecipient | internal/handler/coin.go:29-36 | a lookup error or an unknown recipient gives 404 "user not found" and no transfer |
| CoinHandler.SendSucceedsIff | internal/handler/coin.go:18-43 | the reply is 200 exactly when the request is valid, the recipient resolves and the transfer succeeds; the transfer runs from the caller's id to the recipient's id, not its username |
| CoinHandler.SendReportsTransferError | internal/handler/coin.go:38-40 | a failed transfer gives 400 with that error's own text, and no change |
| CoinHandler.SendRefusesOverdraft | internal/handler/coin.go:38-40 | a payer who cannot afford the amount gets 400 "insufficient funds" |
| CoinHandler.SendKeepsInvariant | internal/handler/coin.go:24-38 | through the handler every path keeps the invariant, because the amount guard rules out non-positive transfers |
| CoinHandler.SendConservesCoins | internal/handler/coin.go:29-38 | a 200 leaves the sum of all balances unchanged, because the recipient always exists |
| CoinHandler.SelfSendIsAccepted | internal/handler/coin.go:28-38 | sending to oneself is not refused: 200, no balance changes, and one ledger row is recorded |
| ShopHandler.ReplyFor | internal/handler/shop.go:21-31 | 200 exactly on success; 400 exactly for the two sentinel errors; 500 for every other error |
| ShopHandler.BuyItem | internal/handler/shop.go:17-32 | the service runs with the caller's id and the unmodified item name; the reply is `ReplyFor` of its error |
| ShopHandler.ReplyTexts | internal/handler/shop.go:23-31 | "item not found", "insufficient coins" (which differs from the error's own "insufficient funds"), "internal error", and 200 success |
| ShopHandler.BuyOkMeansPurchased | internal/handler/shop.go:17-32 | the reply is 200 exactly when the purchase can go through; any other reply leaves the tables unchanged |
| ShopHandler.MissingBuyerIsInternalError | internal/handler/shop.go:27-28 | a missing buyer is not told apart from a store failure: 500 "internal error" |
| AuthHandler.Admit | internal/handler/auth.go:50-56 | 200 with a token naming the account's id exactly when the password verifies against the stored hash; otherwise 401 "invalid credentials" |
| AuthHandler.Login | internal/handler/auth.go:22-57 | the reply and the new tables are those of `LoginOutcome` on the old tables |
| AuthHandler.LoginOutcome | internal/handler/auth.go:22-57 | reference definition of the handler: guards, lookup, create on first login, password check and token; its properties are the lemmas below |
| AuthHandler.LoginRefusesBadRequests | internal/handler/auth.go:24-30 | a body that does not decode gives 400 "invalid request"; an empty username or password gives 400 "invalid credentials"; no store access |
| AuthHandler.LoginReportsLookupError | internal/handler/auth.go:32-35 | a lookup error other than the driver's "no rows" gives 500 "database error", no token and no account |
| AuthHandler.NoRowsLookupIsFirstLogin | internal/repository/user_repo.go:50-52 | the driver's "no rows" error from the lookup is mapped to (nil, nil), so the login goes on as a first login |
| AuthHandler.FirstLoginOpensAccount | internal/handler/auth.go:37-56 | an unknown username gets exactly one new account (its username, the hash of its password, 1000 coins) and a token naming the generated id |
| AuthHandler.LoginReportsCreationError | internal/handler/auth.go:44-46 | a failed insert gives 500 "user creation failed", no token and no account |
| AuthHandler.ReturningLogin | internal/handler/auth.go:50-56 | an existing account writes nothing: 200 with its own id exactly when the password verifies, otherwise 401 |
| AuthHandler.SamePasswordLogsInAgain | internal/handler/auth.go:37-56 | the password chosen at first login opens the same account on the next login |
| AuthHandler.LoginKeepsInvariant | internal/handler/auth.go:37-48 | login writes at most one row, a new account with 1000 coins, and keeps the invariant |
| InfoHandler.Respond | internal/handler/info.go:34-59 | 200 with the balance, inventory and history exactly when all three lookups succeed; 404 "user not found" for "no rows" or a nil user; 500 with the failing lookup's message otherwise |
| InfoHandler.GetUserInfo | internal/handler/info.go:31-60 | the reply is `InfoReply` of the current tables, reading the inventory and the history only after the user is found; the method has no `modifies` clause, so no path writes |
| InfoHandler.InfoReply | internal/handler/info.go:31-60 | reference definition of the handler: `Respond` over the lookup by id, the inventory read and the history read of the tables |
| InfoHandler.MissingUserIsNotFound | internal/handler/info.go:34-43 | a missing user gives 404 "user not found" through the "no rows" error; the nil-user branch is never taken |
| InfoHandler.LookupFailureIsDatabaseError | internal/handler/info.go:35-39 | any other lookup error gives 500 "database error" |
| InfoHandler.InfoShowsStoredState | internal/handler/info.go:55-59 | without failures: 200, the stored balance, exactly the user's inventory rows, and exactly the history projections |
| InfoHandler.EmptyUserGetsEmptyLists | internal/handler/info.go:55-59 | a user with no inventory and no transfers still gets 200 with empty lists |
| InfoHandler.FailedNextHidesInventory | internal/handler/info.go:45-59 | a failing `Next` on the first inventory row is not reported: a user who owns items gets 200 with an empty inventory |

## Left out

- Concurrency: the `FOR UPDATE` row lock is read as a plain read, and the model is sequential. The race on the purchase path between the snapshot read (internal/service/shop.go:38) and the debit (line 55) is therefore not modelled.
- SQL and the pgx driver: SQL text, `Batch` mechanics, and the ignored error of `br.Close()` are not modelled. A failing `Next` on a result set is modelled, as the driver documents it, as ending the loop with the error held only by `rows.Err()`; a failure the driver reports only at the end of the result set leaves the full list, with no error. Result-row order is taken to be the ledger's insertion order, although the queries have no ORDER BY.
- Timestamps: `created_at` and the `Timestamp` fields of the history rows are dropped.
- Password hashing is uninterpreted: `AuthHandler.Crypto` is a pair of functions, and `AuthHandler.Sound` is the only assumption about it (a password verifies against its own hash). The ignored error of `GenerateFromPassword` at internal/handler/auth.go:38 is not modelled. The hashing library refuses a password longer than 72 bytes; the source then stores an empty hash, and the account it creates can never log in. `Sound` rules that case out, so `AuthHandler.FirstLoginOpensAccount` and `AuthHandler.SamePasswordLogsInAgain` hold only under that assumption.
- JWT signing: a token is represented by its one claim, `Token(userId)`. The secret and the signature are not modelled.
- HTTP binding and JSON: a failed `c.Bind` is the boolean input `bound`. Encoding the reply is not modelled. The `user_id` from the request context is an input.
- Store-generated ids: the id that `CreateUser` receives from `RETURNING id` is the input `generatedId`.
- Uniqueness: the store's uniqueness constraint on usernames and ids is modelled as `UniqueViolation`. Any foreign-key or CHECK constraint of the schema is not part of this model. That is why `TransactionRepo.MissingPayeeLosesCoins` describes the engine on its own.
- GetUserInventory returns a nil slice when there are no rows; the model has no separate nil value and returns an empty sequence.
- Error identity: `errors.Is(err, sql.ErrNoRows)` in the info handler is modelled as the `NoRows` kind of `StoreError`. Whether the driver's "no rows" error matches `sql.ErrNoRows` depends on the pgx version, which is not part of this model.
- Machine integers: `int` overflow of `coins + amount` is not modelled; balances are unbounded integers.
- Logging: all `log.Printf` calls are left out.
- Outside the core: internal/cmd/main.go, the middleware, and the test harness and mocks are not part of this model.
- The validator in internal/middleware/validation.go is never registered, so the `validate` tags of the request types are not enforced. The model follows that.
