/**
 * The value types of the wallet: the user record, the response bodies, the request bodies,
 * the sentinel errors, and the HTTP reply a handler produces.  They hold no behaviour.
 */
module Model {
  import opened Wrappers

  /** Account identifiers are generated by the store and handled as text. */
  type Id = string

  /** A row of the users table; `id` stays empty until the store assigns one. */
  datatype User = User(id: Id, username: string, passwordHash: string, coins: int)

  datatype InventoryItem = InventoryItem(name: string, quantity: int)

  /** History rows; the `created_at` timestamp is not modelled. */
  datatype ReceivedTransaction = ReceivedTransaction(fromUser: string, amount: int)

  datatype SentTransaction = SentTransaction(toUser: string, amount: int)

  datatype TransactionHistory = TransactionHistory(received: seq<ReceivedTransaction>, sent: seq<SentTransaction>)

  datatype InfoResponse = InfoResponse(coins: int, inventory: seq<InventoryItem>, coinHistory: TransactionHistory)

  datatype ErrorResponse = ErrorResponse(errors: string)

  /** A signed token, represented by the one claim it carries. */
  datatype Token = Token(userId: Id)

  datatype AuthResponse = AuthResponse(token: Token)

  datatype SendCoinRequest = SendCoinRequest(toUser: string, amount: int)

  datatype AuthRequest = AuthRequest(username: string, password: string)

  /** Whether a failed store call means "the query matched no row" or anything else. */
  datatype LookupKind = NoRows | OtherFailure

  /** An error raised by the store or its driver, with the text its Error() method yields. */
  datatype StoreError = StoreError(kind: LookupKind, message: string)

  const NoRowsError := StoreError(NoRows, "no rows in result set")
  const TxClosedError := StoreError(OtherFailure, "tx is closed")
  const UniqueViolation := StoreError(OtherFailure, "duplicate key value violates unique constraint")

  /** The sentinel errors of the model package, plus errors passed through from the store. */
  datatype Error =
    | ItemNotFound
    | InsufficientFunds
    | UserExists
    | InvalidToken
    | InvalidRequest
    | InvalidCredentials
    | Store(cause: StoreError)

  /** The text of `err.Error()`. */
  function Message(e: Error): string
  {
    match e
    case ItemNotFound => "item not found"
    case InsufficientFunds => "insufficient funds"
    case UserExists => "user already exists"
    case InvalidToken => "invalid token"
    case InvalidRequest => "invalid request"
    case InvalidCredentials => "invalid credentials"
    case Store(cause) => cause.message
  }

  /** The JSON body of a reply. */
  datatype Body =
    | Failure(response: ErrorResponse)
    | StatusSuccess
    | Auth(auth: AuthResponse)
    | Info(info: InfoResponse)

  /** An HTTP status code with its body. */
  datatype Reply = Reply(status: int, body: Body)

  function Fail(status: int, message: string): Reply
  {
    Reply(status, Failure(ErrorResponse(message)))
  }

  const Success := Reply(200, StatusSuccess)

  /** What the store answers at `step` of an operation: the injected error, if any. */
  function FaultAt<K>(faults: map<K, StoreError>, step: K): Option<StoreError>
  {
    if step in faults then Some(faults[step]) else None
  }
}
