/**
 * The login handler: the credential guards, the creation of an account on first login, the
 * password check against the stored hash, and the issue of a token naming the account.
 */
module AuthHandler {
  import opened Wrappers
  import opened Model
  import opened Tables
  import opened Store
  import UserRepo

  /** The password hashing scheme, left uninterpreted: a hash function and a verifier. */
  datatype Crypto = Crypto(hash: string -> string, verify: (string, string) -> bool)

  /** The one property the handler relies on: a password verifies against its own hash. */
  ghost predicate Sound(c: Crypto)
  {
    forall p :: c.verify(c.hash(p), p)
  }

  /** The balance of a new account. */
  const InitialCoins := 1000

  /** The account that a first login creates, before the store assigns its id. */
  function NewAccount(crypto: Crypto, req: AuthRequest): User
  {
    User("", req.username, crypto.hash(req.password), InitialCoins)
  }

  /** The last step of a login: check the password against `user`'s hash, then issue its token. */
  function Admit(crypto: Crypto, user: User, password: string): (r: Reply)
    ensures r.status == 200 <==> crypto.verify(user.passwordHash, password)
    ensures r.status == 200 ==> r == Reply(200, Auth(AuthResponse(Token(user.id))))
    ensures r.status != 200 ==> r == Fail(401, "invalid credentials")
  {
    if !crypto.verify(user.passwordHash, password) then Fail(401, "invalid credentials")
    else Reply(200, Auth(AuthResponse(Token(user.id))))
  }

  /**
   * The reply of Login, and the tables afterwards.  `bound` says whether the body decoded,
   * `generatedId` is the id the store would assign, the faults are failures of the lookup and of the insert.
   */
  function LoginOutcome(t: Tables, bound: bool, req: AuthRequest, crypto: Crypto, generatedId: Id,
                        lookupFault: Option<StoreError>, createFault: Option<StoreError>): (Reply, Tables)
  {
    if !bound then (Fail(400, "invalid request"), t)
    else if req.username == "" || req.password == "" then (Fail(400, "invalid credentials"), t)
    else
      var found := UserRepo.GetUserByUsername(t.users, req.username, lookupFault);
      if found.err.Some? then (Fail(500, "database error"), t)
      else if found.user.Some? then (Admit(crypto, found.user.value, req.password), t)
      else if createFault.Some? || UserRepo.Conflicts(t.users, req.username, generatedId) then (Fail(500, "user creation failed"), t)
      else
        var saved := NewAccount(crypto, req).(id := generatedId);
        (Admit(crypto, saved, req.password), t.(users := t.users + [saved]))
  }

  /** Login: authenticate an existing account, or open one on first login; either way issue a token. */
  method Login(pool: Database, bound: bool, req: AuthRequest, crypto: Crypto, generatedId: Id,
               lookupFault: Option<StoreError>, createFault: Option<StoreError>) returns (reply: Reply)
    modifies pool
    ensures (reply, pool.State()) == LoginOutcome(old(pool.State()), bound, req, crypto, generatedId, lookupFault, createFault)
  {
    if !bound {
      return Fail(400, "invalid request");
    }
    if req.username == "" || req.password == "" {
      return Fail(400, "invalid credentials");
    }
    var found := UserRepo.GetUserByUsername(pool.users, req.username, lookupFault);
    if found.err.Some? {
      return Fail(500, "database error");
    }
    var user: User;
    if found.user.None? {
      var err;
      user, err := UserRepo.CreateUser(pool, NewAccount(crypto, req), generatedId, createFault);
      if err.Some? {
        return Fail(500, "user creation failed");
      }
    } else {
      user := found.user.value;
    }
    reply := Admit(crypto, user, req.password);
  }

  /** A body that does not decode, or an empty username or password, is refused with 400 before any store access. */
  lemma LoginRefusesBadRequests(t: Tables, bound: bool, req: AuthRequest, crypto: Crypto, generatedId: Id,
                                lookupFault: Option<StoreError>, createFault: Option<StoreError>)
    ensures !bound ==> LoginOutcome(t, bound, req, crypto, generatedId, lookupFault, createFault) == (Fail(400, "invalid request"), t)
    ensures bound && (req.username == "" || req.password == "") ==>
      LoginOutcome(t, bound, req, crypto, generatedId, lookupFault, createFault) == (Fail(400, "invalid credentials"), t)
  {
  }

  /** A failing lookup, other than the driver's "no rows", gives 500 "database error", no token and no account. */
  lemma LoginReportsLookupError(t: Tables, req: AuthRequest, crypto: Crypto, generatedId: Id, fault: StoreError,
                                createFault: Option<StoreError>)
    requires req.username != "" && req.password != "" && fault != NoRowsError
    ensures LoginOutcome(t, true, req, crypto, generatedId, Some(fault), createFault) == (Fail(500, "database error"), t)
  {
  }

  /** The driver's "no rows" error on the lookup is the unknown-username path: the login goes on to create the account. */
  lemma NoRowsLookupIsFirstLogin(t: Tables, bound: bool, req: AuthRequest, crypto: Crypto, generatedId: Id,
                                 createFault: Option<StoreError>)
    requires FindByUsername(t.users, req.username).None?
    ensures LoginOutcome(t, bound, req, crypto, generatedId, Some(NoRowsError), createFault) ==
      LoginOutcome(t, bound, req, crypto, generatedId, None, createFault)
  {
  }

  /**
   * First login: an unknown username gets exactly one new account, holding a hash of the password and
   * 1000 coins, and a token naming the id the store assigned.
   */
  lemma FirstLoginOpensAccount(t: Tables, req: AuthRequest, crypto: Crypto, generatedId: Id)
    requires Sound(crypto) && req.username != "" && req.password != ""
    requires FindByUsername(t.users, req.username).None? && FindById(t.users, generatedId).None?
    ensures LoginOutcome(t, true, req, crypto, generatedId, None, None) ==
      (Reply(200, Auth(AuthResponse(Token(generatedId)))),
       t.(users := t.users + [User(generatedId, req.username, crypto.hash(req.password), 1000)]))
  {
  }

  /** A failed insert on first login gives 500 "user creation failed", no token and no account. */
  lemma LoginReportsCreationError(t: Tables, req: AuthRequest, crypto: Crypto, generatedId: Id, fault: StoreError)
    requires req.username != "" && req.password != "" && FindByUsername(t.users, req.username).None?
    ensures LoginOutcome(t, true, req, crypto, generatedId, None, Some(fault)) == (Fail(500, "user creation failed"), t)
  {
  }

  /**
   * Returning login: nothing is written; the reply is 200 with the account's own id exactly when the
   * password verifies against the stored hash, and 401 "invalid credentials" otherwise.
   */
  lemma ReturningLogin(t: Tables, req: AuthRequest, crypto: Crypto, generatedId: Id, createFault: Option<StoreError>)
    requires req.username != "" && req.password != "" && FindByUsername(t.users, req.username).Some?
    ensures var (reply, after) := LoginOutcome(t, true, req, crypto, generatedId, None, createFault);
      var u := FindByUsername(t.users, req.username).value;
      && after == t
      && (reply.status == 200 <==> crypto.verify(u.passwordHash, req.password))
      && (reply.status == 200 ==> reply.body == Auth(AuthResponse(Token(u.id))))
      && (reply.status != 200 ==> reply == Fail(401, "invalid credentials"))
  {
  }

  /** The password chosen at first login opens the account again on the next login. */
  lemma SamePasswordLogsInAgain(t: Tables, req: AuthRequest, crypto: Crypto, generatedId: Id, nextId: Id)
    requires Sound(crypto) && req.username != "" && req.password != ""
    requires FindByUsername(t.users, req.username).None? && FindById(t.users, generatedId).None?
    ensures var after := LoginOutcome(t, true, req, crypto, generatedId, None, None).1;
      LoginOutcome(after, true, req, crypto, nextId, None, None) == (Reply(200, Auth(AuthResponse(Token(generatedId)))), after)
  {
    FirstLoginOpensAccount(t, req, crypto, generatedId);
    var saved := User(generatedId, req.username, crypto.hash(req.password), 1000);
    var users := t.users + [saved];
    assert users[|t.users|] == saved;
    forall i | 0 <= i < |t.users| ensures users[i].username != req.username {
      assert users[i] == t.users[i];
    }
    assert FindByUsername(users, req.username) == Some(saved) by {
      FirstUsernameMatch(users, req.username, |t.users|);
    }
  }

  /** The row found by username is the first row carrying it. */
  lemma {:induction false} FirstUsernameMatch(users: seq<User>, username: string, k: nat)
    requires k < |users| && users[k].username == username
    requires forall i :: 0 <= i < k ==> users[i].username != username
    ensures FindByUsername(users, username) == Some(users[k])
  {
    if k > 0 {
      forall i | 0 <= i < k - 1 ensures users[1..][i].username != username {
        assert users[1..][i] == users[i + 1];
      }
      FirstUsernameMatch(users[1..], username, k - 1);
    }
  }

  /** Login writes at most one row, a new account with 1000 coins, and keeps the store invariant. */
  lemma LoginKeepsInvariant(t: Tables, bound: bool, req: AuthRequest, crypto: Crypto, generatedId: Id,
                            lookupFault: Option<StoreError>, createFault: Option<StoreError>)
    requires Invariant(t)
    ensures var after := LoginOutcome(t, bound, req, crypto, generatedId, lookupFault, createFault).1;
      && Invariant(after)
      && after.transactions == t.transactions && after.inventory == t.inventory
      && (after.users == t.users || after.users == t.users + [User(generatedId, req.username, crypto.hash(req.password), 1000)])
  {
    var saved := NewAccount(crypto, req).(id := generatedId);
    if !UserRepo.Conflicts(t.users, req.username, generatedId) {
      UserRepo.InsertKeepsInvariant(t, saved);
    }
  }
}
