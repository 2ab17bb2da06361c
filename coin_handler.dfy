/**
 * The send-coins handler: the amount guard, the resolution of the recipient by username, and the
 * mapping of the transfer's outcome to an HTTP reply.
 */
module CoinHandler {
  import opened Wrappers
  import opened Model
  import opened Tables
  import opened Store
  import UserRepo
  import TransactionRepo

  /**
   * The reply of SendCoins, and the tables afterwards.  `bound` says whether the request body
   * decoded; `lookupFault` is a failure of the recipient lookup.
   */
  function SendOutcome(t: Tables, bound: bool, req: SendCoinRequest, userId: Id, lookupFault: Option<StoreError>,
                       faults: map<TransactionRepo.TransferStep, StoreError>): (Reply, Tables)
  {
    if !bound then (Fail(400, "invalid request"), t)
    else if req.amount <= 0 then (Fail(400, "amount must be positive"), t)
    else
      var recipient := UserRepo.GetUserByUsername(t.users, req.toUser, lookupFault);
      if recipient.err.Some? || recipient.user.None? then (Fail(404, "user not found"), t)
      else
        var (err, after) := TransactionRepo.TransferOutcome(t, userId, recipient.user.value.id, req.amount, faults);
        if err.Some? then (Fail(400, Message(err.value)), after) else (Success, after)
  }

  /** SendCoins: the payer is the authenticated `userId`, the payee the id of the account named `req.toUser`. */
  method SendCoins(pool: Database, bound: bool, req: SendCoinRequest, userId: Id, lookupFault: Option<StoreError>,
                   faults: map<TransactionRepo.TransferStep, StoreError>) returns (reply: Reply)
    modifies pool
    ensures (reply, pool.State()) == SendOutcome(old(pool.State()), bound, req, userId, lookupFault, faults)
  {
    if !bound {
      return Fail(400, "invalid request");
    }
    if req.amount <= 0 {
      return Fail(400, "amount must be positive");
    }
    var recipient := UserRepo.GetUserByUsername(pool.users, req.toUser, lookupFault);
    if recipient.err.Some? {
      return Fail(404, "user not found");
    }
    if recipient.user.None? {
      return Fail(404, "user not found");
    }
    var err := TransactionRepo.TransferCoins(pool, userId, recipient.user.value.id, req.amount, faults);
    if err.Some? {
      return Fail(400, Message(err.value));
    }
    return Success;
  }

  /** A body that does not decode, or a non-positive amount, is refused with 400 before any store access. */
  lemma SendRefusesBadRequests(t: Tables, bound: bool, req: SendCoinRequest, userId: Id, lookupFault: Option<StoreError>,
                               faults: map<TransactionRepo.TransferStep, StoreError>)
    ensures !bound ==> SendOutcome(t, bound, req, userId, lookupFault, faults) == (Fail(400, "invalid request"), t)
    ensures bound && req.amount <= 0 ==>
      SendOutcome(t, bound, req, userId, lookupFault, faults) == (Fail(400, "amount must be positive"), t)
  {
  }

  /** A failing recipient lookup, or an unknown recipient, gives 404 and no transfer. */
  lemma SendNeedsRecipient(t: Tables, req: SendCoinRequest, userId: Id, lookupFault: Option<StoreError>,
                           faults: map<TransactionRepo.TransferStep, StoreError>)
    requires req.amount > 0
    requires lookupFault.Some? || FindByUsername(t.users, req.toUser).None?
    ensures SendOutcome(t, true, req, userId, lookupFault, faults) == (Fail(404, "user not found"), t)
  {
  }

  /**
   * SendCoins replies 200 exactly when the request is well formed, the recipient resolves, and the
   * transfer succeeds; the transfer then runs from `userId` to the recipient's id.
   */
  lemma SendSucceedsIff(t: Tables, bound: bool, req: SendCoinRequest, userId: Id, lookupFault: Option<StoreError>,
                        faults: map<TransactionRepo.TransferStep, StoreError>)
    ensures SendOutcome(t, bound, req, userId, lookupFault, faults).0 == Success <==>
      && bound && req.amount > 0 && lookupFault.None? && FindByUsername(t.users, req.toUser).Some?
      && TransactionRepo.NoTransferFault(faults)
      && FindById(t.users, userId).Some? && FindById(t.users, userId).value.coins >= req.amount
    ensures SendOutcome(t, bound, req, userId, lookupFault, faults).0 == Success ==>
      SendOutcome(t, bound, req, userId, lookupFault, faults).1 ==
        TransactionRepo.Transferred(t, userId, FindByUsername(t.users, req.toUser).value.id, req.amount)
  {
    if bound && req.amount > 0 && lookupFault.None? && FindByUsername(t.users, req.toUser).Some? {
      TransactionRepo.TransferSucceedsIff(t, userId, FindByUsername(t.users, req.toUser).value.id, req.amount, faults);
    }
  }

  /** A failed transfer is reported as 400 with the error's own text, and changes nothing. */
  lemma SendReportsTransferError(t: Tables, req: SendCoinRequest, userId: Id, faults: map<TransactionRepo.TransferStep, StoreError>)
    requires req.amount > 0 && FindByUsername(t.users, req.toUser).Some?
    ensures var (err, _) := TransactionRepo.TransferOutcome(t, userId, FindByUsername(t.users, req.toUser).value.id, req.amount, faults);
      err.Some? ==> SendOutcome(t, true, req, userId, None, faults) == (Fail(400, Message(err.value)), t)
  {
    TransactionRepo.TransferFailureChangesNothing(t, userId, FindByUsername(t.users, req.toUser).value.id, req.amount, faults);
  }

  /** A payer who cannot afford the amount gets 400 "insufficient funds". */
  lemma SendRefusesOverdraft(t: Tables, req: SendCoinRequest, userId: Id, faults: map<TransactionRepo.TransferStep, StoreError>)
    requires req.amount > 0 && FindByUsername(t.users, req.toUser).Some?
    requires TransactionRepo.BeginTransfer !in faults && TransactionRepo.LockPayer !in faults
    requires FindById(t.users, userId).Some? && FindById(t.users, userId).value.coins < req.amount
    ensures SendOutcome(t, true, req, userId, None, faults) == (Fail(400, "insufficient funds"), t)
  {
    TransactionRepo.TransferRefusesOverdraft(t, userId, FindByUsername(t.users, req.toUser).value.id, req.amount, faults);
  }

  /** Through the handler the store invariant is kept on every path: the amount guard rules out a negative transfer. */
  lemma SendKeepsInvariant(t: Tables, bound: bool, req: SendCoinRequest, userId: Id, lookupFault: Option<StoreError>,
                           faults: map<TransactionRepo.TransferStep, StoreError>)
    requires Invariant(t)
    ensures Invariant(SendOutcome(t, bound, req, userId, lookupFault, faults).1)
  {
    if bound && req.amount > 0 && lookupFault.None? && FindByUsername(t.users, req.toUser).Some? {
      TransactionRepo.TransferKeepsInvariant(t, userId, FindByUsername(t.users, req.toUser).value.id, req.amount, faults);
    }
  }

  /** A 200 from SendCoins leaves the sum of all balances unchanged: the recipient always exists. */
  lemma SendConservesCoins(t: Tables, bound: bool, req: SendCoinRequest, userId: Id, lookupFault: Option<StoreError>,
                           faults: map<TransactionRepo.TransferStep, StoreError>)
    requires UniqueIds(t.users)
    requires SendOutcome(t, bound, req, userId, lookupFault, faults).0 == Success
    ensures TotalCoins(SendOutcome(t, bound, req, userId, lookupFault, faults).1.users) == TotalCoins(t.users)
  {
    SendSucceedsIff(t, bound, req, userId, lookupFault, faults);
    var payee := FindByUsername(t.users, req.toUser).value;
    var i :| 0 <= i < |t.users| && t.users[i] == payee;
    assert FindById(t.users, payee.id).Some?;
    TransactionRepo.TransferConservesCoins(t, userId, payee.id, req.amount, faults);
  }

  /** Sending coins to oneself is not refused: it replies 200, changes no balance and still records a ledger row. */
  lemma SelfSendIsAccepted(t: Tables, req: SendCoinRequest, userId: Id)
    requires req.amount > 0 && FindByUsername(t.users, req.toUser).Some? && FindByUsername(t.users, req.toUser).value.id == userId
    requires FindById(t.users, userId).value.coins >= req.amount
    ensures SendOutcome(t, true, req, userId, None, map[]).0 == Success
    ensures forall x :: FindById(SendOutcome(t, true, req, userId, None, map[]).1.users, x) == FindById(t.users, x)
    ensures SendOutcome(t, true, req, userId, None, map[]).1.transactions == t.transactions + [LedgerEntry(userId, userId, req.amount)]
  {
    SendSucceedsIff(t, true, req, userId, None, map[]);
    forall x ensures FindById(SendOutcome(t, true, req, userId, None, map[]).1.users, x) == FindById(t.users, x) {
      TransactionRepo.SelfTransferKeepsBalances(t, userId, req.amount, map[], x);
    }
    TransactionRepo.SelfTransferKeepsBalances(t, userId, req.amount, map[], userId);
  }
}
