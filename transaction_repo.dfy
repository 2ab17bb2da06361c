/**
 * The transaction repository: the guarded, batched, atomic transfer between two accounts,
 * and the received/sent history of a user.
 */
module TransactionRepo {
  import opened Wrappers
  import opened Model
  import opened Tables
  import opened Store

  // ---------------------------------------------------------------------------------------
  // Transfer
  // ---------------------------------------------------------------------------------------

  /** The store calls of TransferCoins that can fail. */
  datatype TransferStep = BeginTransfer | LockPayer | BatchExec(i: nat) | CommitTransfer

  /** The three statements queued in the batch, in queue order. */
  function TransferBatch(from: Id, to: Id, amount: int): seq<Mutation>
  {
    [AddCoins(from, Debit(amount)), AddCoins(to, amount), InsertTransfer(LedgerEntry(from, to, amount))]
  }

  /** SELECT coins FROM users WHERE id = $1 (FOR UPDATE, read here as a plain read). */
  function LockedBalance(users: seq<User>, id: Id, fault: Option<StoreError>): Result<int, StoreError>
  {
    if fault.Some? then Err(fault.value)
    else match FindById(users, id)
      case None => Err(NoRowsError)
      case Some(u) => Ok(u.coins)
  }

  /** Executing the batch results from statement `i` on: each one in order, stopping at the first that fails. */
  function RunBatch(t: Tables, batch: seq<Mutation>, faults: map<TransferStep, StoreError>, i: nat): Result<Tables, StoreError>
    decreases |batch| - i
  {
    if i >= |batch| then Ok(t)
    else if BatchExec(i) in faults then Err(faults[BatchExec(i)])
    else RunBatch(Apply(t, batch[i]), batch, faults, i + 1)
  }

  /** The reference effect of a transfer: payer debited, payee credited, one ledger row appended. */
  function Transferred(t: Tables, from: Id, to: Id, amount: int): Tables
  {
    t.(users := Credit(Credit(t.users, from, Debit(amount)), to, amount),
       transactions := t.transactions + [LedgerEntry(from, to, amount)])
  }

  /** The outcome of TransferCoins on the tables `t`: the error returned, and the tables afterwards. */
  function TransferOutcome(t: Tables, from: Id, to: Id, amount: int, faults: map<TransferStep, StoreError>): (Option<Error>, Tables)
  {
    if BeginTransfer in faults then (Some(Store(faults[BeginTransfer])), t)
    else match LockedBalance(t.users, from, FaultAt(faults, LockPayer))
      case Err(e) => (Some(Store(e)), t)
      case Ok(balance) =>
        if balance < amount then (Some(InsufficientFunds), t)
        else match RunBatch(t, TransferBatch(from, to, amount), faults, 0)
          case Err(e) => (Some(Store(e)), t)
          case Ok(staged) =>
            if CommitTransfer in faults then (Some(Store(faults[CommitTransfer])), t) else (None, staged)
  }

  /**
   * TransferCoins: begin, read the payer's balance, refuse with InsufficientFunds when it is below
   * `amount`, run the three queued statements one by one, commit.  Every early return drops the scope.
   */
  method TransferCoins(pool: Database, fromUserId: Id, toUserId: Id, amount: int, faults: map<TransferStep, StoreError>)
      returns (err: Option<Error>)
    modifies pool
    ensures (err, pool.State()) == TransferOutcome(old(pool.State()), fromUserId, toUserId, amount, faults)
  {
    var tx, beginErr := pool.BeginTx(FaultAt(faults, BeginTransfer));
    if beginErr.Some? {
      return Some(Store(beginErr.value));
    }
    var balance := LockedBalance(tx.staged.users, fromUserId, FaultAt(faults, LockPayer));
    if balance.Err? {
      tx.Rollback();
      return Some(Store(balance.error));
    }
    if balance.value < amount {
      tx.Rollback();
      return Some(InsufficientFunds);
    }
    var batch := TransferBatch(fromUserId, toUserId, amount);
    var i := 0;
    while i < |batch|
      invariant 0 <= i <= |batch|
      invariant tx.open
      invariant pool.State() == old(pool.State())
      invariant RunBatch(tx.staged, batch, faults, i) == RunBatch(old(pool.State()), batch, faults, 0)
    {
      var e := tx.Exec(batch[i], FaultAt(faults, BatchExec(i)));
      if e.Some? {
        tx.Rollback();
        return Some(Store(e.value));
      }
      i := i + 1;
    }
    var commitErr := tx.Commit(FaultAt(faults, CommitTransfer));
    if commitErr.Some? {
      return Some(Store(commitErr.value));
    }
    return None;
  }

  /** Whether none of the six store calls of a transfer fails. */
  predicate NoTransferFault(faults: map<TransferStep, StoreError>)
  {
    && BeginTransfer !in faults && LockPayer !in faults
    && BatchExec(0) !in faults && BatchExec(1) !in faults && BatchExec(2) !in faults
    && CommitTransfer !in faults
  }

  /** The batch either stops at its first failing statement, or has the reference effect. */
  lemma BatchRuns(t: Tables, from: Id, to: Id, amount: int, faults: map<TransferStep, StoreError>)
    ensures RunBatch(t, TransferBatch(from, to, amount), faults, 0) ==
      if BatchExec(0) in faults then Err(faults[BatchExec(0)])
      else if BatchExec(1) in faults then Err(faults[BatchExec(1)])
      else if BatchExec(2) in faults then Err(faults[BatchExec(2)])
      else Ok(Transferred(t, from, to, amount))
  {
    var batch := TransferBatch(from, to, amount);
    if BatchExec(0) !in faults {
      var t1 := Apply(t, batch[0]);
      assert RunBatch(t, batch, faults, 0) == RunBatch(t1, batch, faults, 1);
      if BatchExec(1) !in faults {
        var t2 := Apply(t1, batch[1]);
        assert RunBatch(t1, batch, faults, 1) == RunBatch(t2, batch, faults, 2);
        if BatchExec(2) !in faults {
          var t3 := Apply(t2, batch[2]);
          assert RunBatch(t2, batch, faults, 2) == RunBatch(t3, batch, faults, 3);
          assert RunBatch(t3, batch, faults, 3) == Ok(t3);
          assert t3 == Transferred(t, from, to, amount);
        }
      }
    }
  }

  /** A transfer succeeds exactly when no store call fails, the payer exists and holds at least `amount`. */
  lemma TransferSucceedsIff(t: Tables, from: Id, to: Id, amount: int, faults: map<TransferStep, StoreError>)
    ensures TransferOutcome(t, from, to, amount, faults).0.None? <==>
      NoTransferFault(faults) && FindById(t.users, from).Some? && FindById(t.users, from).value.coins >= amount
    ensures TransferOutcome(t, from, to, amount, faults).0.None? ==>
      TransferOutcome(t, from, to, amount, faults).1 == Transferred(t, from, to, amount)
  {
    BatchRuns(t, from, to, amount, faults);
  }

  /** Any failed transfer leaves balances, ledger and inventory exactly as they were (rollback). */
  lemma TransferFailureChangesNothing(t: Tables, from: Id, to: Id, amount: int, faults: map<TransferStep, StoreError>)
    ensures TransferOutcome(t, from, to, amount, faults).0.Some? ==> TransferOutcome(t, from, to, amount, faults).1 == t
  {
  }

  /** A failing begin or balance read is returned unchanged, and any failing call fails the transfer. */
  lemma TransferReturnsStoreError(t: Tables, from: Id, to: Id, amount: int, faults: map<TransferStep, StoreError>)
    ensures BeginTransfer in faults ==> TransferOutcome(t, from, to, amount, faults).0 == Some(Store(faults[BeginTransfer]))
    ensures BeginTransfer !in faults && LockPayer in faults ==>
      TransferOutcome(t, from, to, amount, faults).0 == Some(Store(faults[LockPayer]))
    ensures BeginTransfer !in faults && LockPayer !in faults && FindById(t.users, from).None? ==>
      TransferOutcome(t, from, to, amount, faults).0 == Some(Store(NoRowsError))
    ensures !NoTransferFault(faults) ==> TransferOutcome(t, from, to, amount, faults).0.Some?
  {
    BatchRuns(t, from, to, amount, faults);
  }

  /** Whether a transfer gets past the balance check and starts executing its batch. */
  predicate ReachesBatch(t: Tables, from: Id, amount: int, faults: map<TransferStep, StoreError>)
  {
    && BeginTransfer !in faults && LockPayer !in faults
    && FindById(t.users, from).Some? && FindById(t.users, from).value.coins >= amount
  }

  /** Past the balance check, the first failing Exec of the batch, or else a failing commit, is returned unchanged. */
  lemma TransferReturnsBatchError(t: Tables, from: Id, to: Id, amount: int, faults: map<TransferStep, StoreError>)
    requires ReachesBatch(t, from, amount, faults)
    ensures BatchExec(0) in faults ==> TransferOutcome(t, from, to, amount, faults).0 == Some(Store(faults[BatchExec(0)]))
    ensures BatchExec(0) !in faults && BatchExec(1) in faults ==>
      TransferOutcome(t, from, to, amount, faults).0 == Some(Store(faults[BatchExec(1)]))
    ensures BatchExec(0) !in faults && BatchExec(1) !in faults && BatchExec(2) in faults ==>
      TransferOutcome(t, from, to, amount, faults).0 == Some(Store(faults[BatchExec(2)]))
    ensures BatchExec(0) !in faults && BatchExec(1) !in faults && BatchExec(2) !in faults && CommitTransfer in faults ==>
      TransferOutcome(t, from, to, amount, faults).0 == Some(Store(faults[CommitTransfer]))
  {
    BatchRuns(t, from, to, amount, faults);
  }

  /** A balance below `amount` is refused with InsufficientFunds before any write. */
  lemma TransferRefusesOverdraft(t: Tables, from: Id, to: Id, amount: int, faults: map<TransferStep, StoreError>)
    requires BeginTransfer !in faults && LockPayer !in faults
    requires FindById(t.users, from).Some? && FindById(t.users, from).value.coins < amount
    ensures TransferOutcome(t, from, to, amount, faults) == (Some(InsufficientFunds), t)
  {
  }

  /** A balance exactly equal to `amount` is accepted; a payer distinct from the payee is left at zero. */
  lemma ExactBalanceIsAccepted(t: Tables, from: Id, to: Id, amount: int, faults: map<TransferStep, StoreError>)
    requires NoTransferFault(faults)
    requires FindById(t.users, from).Some? && FindById(t.users, from).value.coins == amount
    ensures TransferOutcome(t, from, to, amount, faults).0.None?
    ensures from != to ==>
      FindById(TransferOutcome(t, from, to, amount, faults).1.users, from) == Some(FindById(t.users, from).value.(coins := 0))
  {
    TransferSucceedsIff(t, from, to, amount, faults);
    if from != to {
      var after := Transferred(t, from, to, amount);
      assert TransferOutcome(t, from, to, amount, faults).1 == after;
      TransferredBalances(t, from, to, amount, from);
      assert FindById(after.users, from).value.coins == 0;
    }
  }

  /** What a transfer does to each account seen through a lookup by id. */
  lemma TransferredBalances(t: Tables, from: Id, to: Id, amount: int, x: Id)
    ensures FindById(Transferred(t, from, to, amount).users, x).Some? == FindById(t.users, x).Some?
    ensures FindById(t.users, x).Some? ==>
      FindById(Transferred(t, from, to, amount).users, x).value ==
        var u := FindById(t.users, x).value;
        u.(coins := u.coins + (if x == to then amount else 0) - (if x == from then amount else 0))
  {
    FindAfterCredit(t.users, from, Debit(amount), x);
    FindAfterCredit(Credit(t.users, from, Debit(amount)), to, amount, x);
  }

  /** A successful transfer to oneself changes no balance; it still records a ledger row. */
  lemma SelfTransferKeepsBalances(t: Tables, id: Id, amount: int, faults: map<TransferStep, StoreError>, x: Id)
    requires TransferOutcome(t, id, id, amount, faults).0.None?
    ensures FindById(TransferOutcome(t, id, id, amount, faults).1.users, x) == FindById(t.users, x)
    ensures TransferOutcome(t, id, id, amount, faults).1.transactions == t.transactions + [LedgerEntry(id, id, amount)]
  {
    TransferSucceedsIff(t, id, id, amount, faults);
    TransferredBalances(t, id, id, amount, x);
  }

  /** On success the payer exists, the tables are the reference effect, and the inventory is untouched. */
  lemma TransferEffect(t: Tables, from: Id, to: Id, amount: int, faults: map<TransferStep, StoreError>)
    requires TransferOutcome(t, from, to, amount, faults).0.None?
    ensures FindById(t.users, from).Some?
    ensures TransferOutcome(t, from, to, amount, faults).1 == Transferred(t, from, to, amount)
    ensures TransferOutcome(t, from, to, amount, faults).1.transactions == t.transactions + [LedgerEntry(from, to, amount)]
    ensures TransferOutcome(t, from, to, amount, faults).1.inventory == t.inventory
  {
    TransferSucceedsIff(t, from, to, amount, faults);
  }

  /** Money conservation: a successful transfer to an existing payee leaves the sum of all balances unchanged. */
  lemma TransferConservesCoins(t: Tables, from: Id, to: Id, amount: int, faults: map<TransferStep, StoreError>)
    requires UniqueIds(t.users) && FindById(t.users, to).Some?
    requires TransferOutcome(t, from, to, amount, faults).0.None?
    ensures TotalCoins(TransferOutcome(t, from, to, amount, faults).1.users) == TotalCoins(t.users)
  {
    TransferSucceedsIff(t, from, to, amount, faults);
    var debited := Credit(t.users, from, Debit(amount));
    TotalAfterCredit(t.users, from, Debit(amount));
    FindAfterCredit(t.users, from, Debit(amount), to);
    TotalAfterCredit(debited, to, amount);
  }

  /** With a positive amount, a transfer keeps the store invariant: in particular no balance goes negative. */
  lemma TransferKeepsInvariant(t: Tables, from: Id, to: Id, amount: int, faults: map<TransferStep, StoreError>)
    requires Invariant(t) && amount > 0
    ensures Invariant(TransferOutcome(t, from, to, amount, faults).1)
  {
    TransferSucceedsIff(t, from, to, amount, faults);
    if TransferOutcome(t, from, to, amount, faults).0.None? {
      var debited := Credit(t.users, from, Debit(amount));
      CreditKeepsNonNegative(t.users, from, Debit(amount));
      CreditKeepsUniqueness(t.users, from, Debit(amount));
      CreditKeepsNonNegative(debited, to, amount);
      CreditKeepsUniqueness(debited, to, amount);
      var ledger := t.transactions + [LedgerEntry(from, to, amount)];
      assert forall k :: 0 <= k < |t.transactions| ==> ledger[k] == t.transactions[k];
    }
  }

  /** After a successful transfer, the payee's received history and the payer's sent history each gain its row, at the end. */
  lemma TransferShowsInHistory(t: Tables, from: Id, to: Id, amount: int, faults: map<TransferStep, StoreError>)
    requires TransferOutcome(t, from, to, amount, faults).0.None?
    ensures var after := TransferOutcome(t, from, to, amount, faults).1;
      && ReceivedOf(after.users, after.transactions, to) ==
           ReceivedOf(t.users, t.transactions, to) + [ReceivedTransaction(FindById(t.users, from).value.username, amount)]
      && (FindById(t.users, to).Some? ==>
           SentOf(after.users, after.transactions, from) ==
             SentOf(t.users, t.transactions, from) + [SentTransaction(FindById(t.users, to).value.username, amount)])
  {
    TransferSucceedsIff(t, from, to, amount, faults);
    var debited := Credit(t.users, from, Debit(amount));
    var users := Credit(debited, to, amount);
    var e := LedgerEntry(from, to, amount);
    HistoryAfterCredit(t.users, t.transactions, from, Debit(amount), to);
    HistoryAfterCredit(debited, t.transactions, to, amount, to);
    HistoryAfterCredit(t.users, t.transactions, from, Debit(amount), from);
    HistoryAfterCredit(debited, t.transactions, to, amount, from);
    ReceivedAfterAppend(users, t.transactions, e, to);
    SentAfterAppend(users, t.transactions, e, from);
    TransferredBalances(t, from, to, amount, from);
    TransferredBalances(t, from, to, amount, to);
  }

  /** The engine alone does not refuse a negative amount: it then drains the payee below zero. */
  lemma NegativeAmountDrainsPayee()
    ensures var t := Tables([User("a", "alice", "h", 0), User("b", "bob", "h", 0)], [], []);
      var (err, after) := TransferOutcome(t, "a", "b", -5, map[]);
      err.None? && !NonNegative(after.users)
  {
    var t := Tables([User("a", "alice", "h", 0), User("b", "bob", "h", 0)], [], []);
    assert FindById(t.users, "a") == Some(t.users[0]);
    TransferSucceedsIff(t, "a", "b", -5, map[]);
    var after := Transferred(t, "a", "b", -5);
    assert TransferOutcome(t, "a", "b", -5, map[]) == (None, after);
    assert FindById(t.users, "b") == Some(t.users[1]);
    TransferredBalances(t, "a", "b", -5, "b");
    var payee := FindById(after.users, "b").value;
    assert payee in after.users && payee.coins == -5;
  }

  /** The engine does not check the payee: a transfer to a missing id debits the payer and credits nobody. */
  lemma MissingPayeeLosesCoins()
    ensures var t := Tables([User("a", "alice", "h", 100)], [], []);
      var (err, after) := TransferOutcome(t, "a", "nobody", 30, map[]);
      err.None? && TotalCoins(after.users) == TotalCoins(t.users) - 30
  {
    var t := Tables([User("a", "alice", "h", 100)], [], []);
    TransferSucceedsIff(t, "a", "nobody", 30, map[]);
    var debited := Credit(t.users, "a", Debit(30));
    TotalAfterCredit(t.users, "a", Debit(30));
    FindAfterCredit(t.users, "a", Debit(30), "nobody");
    TotalAfterCredit(debited, "nobody", 30);
  }

  // ---------------------------------------------------------------------------------------
  // History
  // ---------------------------------------------------------------------------------------

  /** The failing calls of GetTransactionHistory: those of the received query, then those of the sent query. */
  datatype HistoryFaults = HistoryFaults(received: QueryFaults, sent: QueryFaults)

  const NoHistoryFaults := HistoryFaults(NoFaults, NoFaults)

  /** The history the user sees: received and sent rows, in ledger order. */
  function HistoryOf(t: Tables, userId: Id): TransactionHistory
  {
    TransactionHistory(ReceivedOf(t.users, t.transactions, userId), SentOf(t.users, t.transactions, userId))
  }

  /** What GetTransactionHistory returns: the received read, then the sent read, the first error ending it. */
  function HistoryRead(t: Tables, userId: Id, faults: HistoryFaults): (r: Result<TransactionHistory, StoreError>)
    ensures r.Ok? ==> r.value.received <= ReceivedOf(t.users, t.transactions, userId)
    ensures r.Ok? ==> r.value.sent <= SentOf(t.users, t.transactions, userId)
    ensures ReadRows(ReceivedOf(t.users, t.transactions, userId), faults.received).Err? ==>
      r == Err(ReadRows(ReceivedOf(t.users, t.transactions, userId), faults.received).error)
  {
    match ReadRows(ReceivedOf(t.users, t.transactions, userId), faults.received)
    case Err(e) => Err(e)
    case Ok(received) =>
      match ReadRows(SentOf(t.users, t.transactions, userId), faults.sent)
      case Err(e) => Err(e)
      case Ok(sent) => Ok(TransactionHistory(received, sent))
  }

  /**
   * GetTransactionHistory: the received query joined on the sender, then the sent query joined on
   * the recipient, each read row by row into a list that starts empty.
   */
  method GetTransactionHistory(pool: Database, userId: Id, faults: HistoryFaults)
      returns (r: Result<TransactionHistory, StoreError>)
    ensures r == HistoryRead(pool.State(), userId, faults)
  {
    var received: seq<ReceivedTransaction> := [];
    var sent: seq<SentTransaction> := [];
    if faults.received.query.Some? {
      return Err(faults.received.query.value);
    }
    var rows := ReceivedOf(pool.users, pool.transactions, userId);
    var i := 0;
    while i < |rows| && NextRow(i) !in faults.received.rows
      invariant 0 <= i <= |rows|
      invariant received == rows[..i]
      invariant FirstStop(|rows|, faults.received.rows, i) == FirstStop(|rows|, faults.received.rows, 0)
    {
      if ScanRow(i) in faults.received.rows {
        return Err(faults.received.rows[ScanRow(i)]);
      }
      received := received + [rows[i]];
      i := i + 1;
    }
    assert ReadRows(rows, faults.received) == Ok(received);
    if faults.sent.query.Some? {
      return Err(faults.sent.query.value);
    }
    var sentRows := SentOf(pool.users, pool.transactions, userId);
    i := 0;
    while i < |sentRows| && NextRow(i) !in faults.sent.rows
      invariant 0 <= i <= |sentRows|
      invariant sent == sentRows[..i]
      invariant FirstStop(|sentRows|, faults.sent.rows, i) == FirstStop(|sentRows|, faults.sent.rows, 0)
    {
      if ScanRow(i) in faults.sent.rows {
        return Err(faults.sent.rows[ScanRow(i)]);
      }
      sent := sent + [sentRows[i]];
      i := i + 1;
    }
    assert ReadRows(sentRows, faults.sent) == Ok(sent);
    return Ok(TransactionHistory(received, sent));
  }

  /**
   * The history read returns the full projections exactly when no call fails before the end of
   * either result set.
   */
  lemma HistoryReadIsCompleteIff(t: Tables, userId: Id, faults: HistoryFaults)
    ensures HistoryRead(t, userId, faults) == Ok(HistoryOf(t, userId)) <==>
      && faults.received.query.None? && ClearBefore(faults.received.rows, |ReceivedOf(t.users, t.transactions, userId)|)
      && faults.sent.query.None? && ClearBefore(faults.sent.rows, |SentOf(t.users, t.transactions, userId)|)
  {
    ReadIsCompleteIff(ReceivedOf(t.users, t.transactions, userId), faults.received);
    ReadIsCompleteIff(SentOf(t.users, t.transactions, userId), faults.sent);
  }

  /** A failed sent query after a clean received read is returned as the error, and no history. */
  lemma SentQueryErrorIsReturned(t: Tables, userId: Id, e: StoreError)
    ensures HistoryRead(t, userId, HistoryFaults(NoFaults, QueryFaults(Some(e), map[]))) == Err(e)
  {
    ReadIsCompleteIff(ReceivedOf(t.users, t.transactions, userId), NoFaults);
  }

  /** A user who neither paid nor received has an empty history, and a read without failures returns it, not an error. */
  lemma UntouchedUserHasEmptyHistory(t: Tables, userId: Id)
    requires forall k :: 0 <= k < |t.transactions| ==> t.transactions[k].to != userId && t.transactions[k].from != userId
    ensures HistoryOf(t, userId) == TransactionHistory([], [])
    ensures HistoryRead(t, userId, NoHistoryFaults) == Ok(TransactionHistory([], []))
  {
    HistoryReadIsCompleteIff(t, userId, NoHistoryFaults);
  }
}
