/**
 * The connection pool and its transaction scopes.  A transaction works on a staged copy of
 * the tables; Commit writes the copy back, Rollback (or simply dropping the scope) discards it.
 */
module Store {
  import opened Wrappers
  import opened Model
  import opened Tables

  /** The database behind the pool: its three tables, updated in place. */
  class Database {
    var users: seq<User>
    var transactions: seq<LedgerEntry>
    var inventory: seq<InventoryRow>

    function State(): Tables
      reads this
    {
      Tables(users, transactions, inventory)
    }

    /** Replaces the contents of all three tables. */
    method Write(t: Tables)
      modifies this
      ensures State() == t
    {
      users, transactions, inventory := t.users, t.transactions, t.inventory;
    }

    /** BeginTx on the pool: a fresh scope over a copy of the current tables, or the store's error and no scope. */
    method BeginTx(fault: Option<StoreError>) returns (tx: Tx?, err: Option<StoreError>)
      ensures err == fault
      ensures err.None? <==> tx != null
      ensures tx != null ==> fresh(tx) && tx.db == this && tx.staged == State() && tx.open
    {
      if fault.Some? {
        return null, fault;
      }
      tx := new Tx(this);
      err := None;
    }
  }

  /** A transaction scope. */
  class Tx {
    const db: Database
    var staged: Tables
    var open: bool

    constructor (db: Database)
      ensures this.db == db && staged == db.State() && open
    {
      this.db := db;
      staged := db.State();
      open := true;
    }

    /** Exec of one write statement inside the scope; only the staged copy changes. */
    method Exec(m: Mutation, fault: Option<StoreError>) returns (err: Option<StoreError>)
      modifies this
      ensures open == old(open)
      ensures err == if !old(open) then Some(TxClosedError) else fault
      ensures staged == if err.None? then Apply(old(staged), m) else old(staged)
    {
      if !open {
        return Some(TxClosedError);
      }
      if fault.Some? {
        return fault;
      }
      staged := Apply(staged, m);
      err := None;
    }

    /** Commit: the staged copy becomes the database; on failure the database keeps its old contents. */
    method Commit(fault: Option<StoreError>) returns (err: Option<StoreError>)
      modifies this, db
      ensures !open && staged == old(staged)
      ensures err == if !old(open) then Some(TxClosedError) else fault
      ensures db.State() == if err.None? then old(staged) else old(db.State())
    {
      if !open {
        return Some(TxClosedError);
      }
      open := false;
      if fault.Some? {
        return fault;
      }
      db.Write(staged);
      err := None;
    }

    /** Rollback: the scope closes and its staged writes are dropped. */
    method Rollback()
      modifies this
      ensures !open && staged == old(staged)
    {
      open := false;
    }
  }

  // ---------------------------------------------------------------------------------------
  // Reading a result set
  // ---------------------------------------------------------------------------------------

  /** The calls on a result set that can fail: advancing to row `row` (Next), or scanning it (Scan). */
  datatype RowStep = NextRow(row: nat) | ScanRow(row: nat)

  /** The failing calls of one query: the query itself, and the calls on its result set. */
  datatype QueryFaults = QueryFaults(query: Option<StoreError>, rows: map<RowStep, StoreError>)

  const NoFaults := QueryFaults(None, map[])

  /** Whether neither Next nor Scan fails on any row before `k`. */
  predicate ClearBefore(rows: map<RowStep, StoreError>, k: nat)
  {
    forall j :: 0 <= j < k ==> NextRow(j) !in rows && ScanRow(j) !in rows
  }

  /** The first row, from `i` on and below `n`, at which Next or Scan fails; `n` when there is none. */
  function FirstStop(n: nat, rows: map<RowStep, StoreError>, i: nat): (k: nat)
    requires i <= n
    ensures i <= k <= n
    ensures forall j :: i <= j < k ==> NextRow(j) !in rows && ScanRow(j) !in rows
    ensures k < n ==> NextRow(k) in rows || ScanRow(k) in rows
    decreases n - i
  {
    if i == n || NextRow(i) in rows || ScanRow(i) in rows then i else FirstStop(n, rows, i + 1)
  }

  /**
   * A query whose result set is `result`, read with `for rows.Next() { Scan; append }` and no
   * look at rows.Err() afterwards: a failed query or Scan is an error, while a failed Next only
   * ends the loop, so the rows read so far come back as a success.
   */
  function ReadRows<T>(result: seq<T>, f: QueryFaults): (r: Result<seq<T>, StoreError>)
    ensures f.query.Some? ==> r == Err(f.query.value)
    ensures r.Ok? ==> r.value <= result
    ensures r.Ok? && |r.value| < |result| ==> NextRow(|r.value|) in f.rows
  {
    if f.query.Some? then Err(f.query.value)
    else
      var k := FirstStop(|result|, f.rows, 0);
      if k < |result| && NextRow(k) !in f.rows then Err(f.rows[ScanRow(k)]) else Ok(result[..k])
  }

  /**
   * The first failing call on the result set decides: a failed Scan of row `k` is returned as it
   * is, a failed Next before row `k` yields exactly the first `k` rows and no error.
   */
  lemma ReadStopsAtFirstFailure<T>(result: seq<T>, f: QueryFaults, k: nat)
    requires f.query.None? && k < |result| && ClearBefore(f.rows, k)
    ensures NextRow(k) in f.rows ==> ReadRows(result, f) == Ok(result[..k])
    ensures NextRow(k) !in f.rows && ScanRow(k) in f.rows ==> ReadRows(result, f) == Err(f.rows[ScanRow(k)])
  {
    if NextRow(k) in f.rows || ScanRow(k) in f.rows {
      var stop := FirstStop(|result|, f.rows, 0);
      assert stop == k;
    }
  }

  /** The whole result set comes back exactly when no call fails before its end. */
  lemma ReadIsCompleteIff<T>(result: seq<T>, f: QueryFaults)
    ensures ReadRows(result, f) == Ok(result) <==> f.query.None? && ClearBefore(f.rows, |result|)
  {
    if f.query.None? && ClearBefore(f.rows, |result|) {
      assert FirstStop(|result|, f.rows, 0) == |result|;
      assert result[..|result|] == result;
    }
  }
}
