/** The user repository: account creation, the two lookups, the in-transaction balance update. */
module UserRepo {
  import opened Wrappers
  import opened Model
  import opened Tables
  import opened Store

  /** Go's (*User, error) pair: `user == None` stands for a nil pointer. */
  datatype UserLookup = UserLookup(user: Option<User>, err: Option<StoreError>)

  /** The zero User that a failed scan leaves behind. */
  const EmptyUser := User("", "", "", 0)

  /** Whether inserting `username` with id `id` breaks a uniqueness constraint of the users table. */
  predicate Conflicts(users: seq<User>, username: string, id: Id)
  {
    FindByUsername(users, username).Some? || FindById(users, id).Some?
  }

  /**
   * INSERT INTO users ... RETURNING id.  `generatedId` is the id the store generates;
   * `fault` is any other failure of the store.
   */
  method CreateUser(pool: Database, user: User, generatedId: Id, fault: Option<StoreError>)
      returns (saved: User, err: Option<StoreError>)
    modifies pool
    ensures err == if fault.Some? then fault
                   else if Conflicts(old(pool.users), user.username, generatedId) then Some(UniqueViolation)
                   else None
    ensures err.None? ==> saved == user.(id := generatedId) && pool.State() == old(pool.State()).(users := old(pool.users) + [saved])
    ensures err.Some? ==> saved == user && pool.State() == old(pool.State())
  {
    if fault.Some? {
      return user, fault;
    }
    if Conflicts(pool.users, user.username, generatedId) {
      return user, Some(UniqueViolation);
    }
    saved := user.(id := generatedId);
    pool.Write(pool.State().(users := pool.users + [saved]));
    err := None;
  }

  /** A successful insert into a store that satisfies the invariant keeps it, given a non-negative balance. */
  lemma InsertKeepsInvariant(t: Tables, u: User)
    requires Invariant(t) && u.coins >= 0 && !Conflicts(t.users, u.username, u.id)
    ensures Invariant(t.(users := t.users + [u]))
    ensures TotalCoins(t.users + [u]) == TotalCoins(t.users) + u.coins
  {
    TotalAppend(t.users, u);
  }

  lemma {:induction false} TotalAppend(users: seq<User>, u: User)
    ensures TotalCoins(users + [u]) == TotalCoins(users) + u.coins
  {
    if users == [] {
      assert [] + [u] == [u];
    } else {
      assert (users + [u])[1..] == users[1..] + [u];
      TotalAppend(users[1..], u);
    }
  }

  /**
   * GetUserByUsername: the driver's own "no rows" error, compared by identity, becomes (nil, nil);
   * any other store error is (nil, err).
   */
  function GetUserByUsername(users: seq<User>, username: string, fault: Option<StoreError>): (r: UserLookup)
    ensures fault.Some? && fault != Some(NoRowsError) ==> r == UserLookup(None, fault)
    ensures fault == Some(NoRowsError) ==> r == UserLookup(None, None)
    ensures fault.None? ==> r.err.None?
    ensures fault.None? && r.user.None? <==> fault.None? && forall i :: 0 <= i < |users| ==> users[i].username != username
    ensures r.user.Some? ==> r.user.value in users && r.user.value.username == username
  {
    if fault == Some(NoRowsError) then UserLookup(None, None)
    else if fault.Some? then UserLookup(None, fault)
    else
      match FindByUsername(users, username)
      case None => UserLookup(None, None)
      case Some(u) => UserLookup(Some(u), None)
  }

  /** GetUserByID: the user pointer is never nil; a missing row is reported only through the error. */
  function GetUserByID(users: seq<User>, id: Id, fault: Option<StoreError>): (r: UserLookup)
    ensures r.user.Some?
    ensures r.err.None? <==> fault.None? && exists i :: 0 <= i < |users| && users[i].id == id
    ensures fault.Some? ==> r.err == fault
    ensures fault.None? && r.err.Some? ==> r.err == Some(NoRowsError)
    ensures r.err.None? ==> r.user.value in users && r.user.value.id == id
  {
    if fault.Some? then UserLookup(Some(EmptyUser), fault)
    else
      match FindById(users, id)
      case None => UserLookup(Some(EmptyUser), Some(NoRowsError))
      case Some(u) => UserLookup(Some(u), None)
  }

  /** BeginTx of the repository: the pool's own BeginTx. */
  method BeginTx(pool: Database, fault: Option<StoreError>) returns (tx: Tx?, err: Option<StoreError>)
    ensures err == fault
    ensures err.None? <==> tx != null
    ensures tx != null ==> fresh(tx) && tx.db == pool && tx.staged == pool.State() && tx.open
  {
    tx, err := pool.BeginTx(fault);
  }

  /** UPDATE users SET coins = coins + delta WHERE id = $2, staged in `tx`; no sign check on the result. */
  method UpdateUserCoinsTx(tx: Tx, userId: Id, delta: int, fault: Option<StoreError>) returns (err: Option<StoreError>)
    modifies tx
    ensures tx.open == old(tx.open)
    ensures err == if !old(tx.open) then Some(TxClosedError) else fault
    ensures err.None? ==> tx.staged == old(tx.staged).(users := Credit(old(tx.staged.users), userId, delta))
    ensures err.Some? ==> tx.staged == old(tx.staged)
  {
    err := tx.Exec(AddCoins(userId, delta), fault);
  }
}
