/**
 * The account repository: the SQL statements on the accounts table reduced
 * to map operations. `failure` is the error the database driver reports for
 * the statement, if any.
 */
module AccountRepo {
  import opened Wrappers
  import opened Errors
  import opened Models
  import opened Store

  /** The table after `INSERT INTO accounts`: a duplicate id violates the
      primary key (code 23505) and becomes `ErrAccountExists`; any other
      driver error is wrapped. */
  function Inserted(accounts: map<int, int>, account: Account, failure: Option<DbFault>): (r: Result<map<int, int>>)
    ensures failure == Some(UniqueViolation) ==> r == Err(AccountExists)
    ensures failure.Some? && failure.value.Failure? ==>
      r == Err(Wrapped("failed to create account", Driver(failure.value)))
    ensures failure.None? && account.id in accounts ==> r == Err(AccountExists)
    ensures failure.None? && account.id !in accounts ==>
      && r.Ok?
      && r.value.Keys == accounts.Keys + {account.id}
      && r.value[account.id] == account.balance
      && (forall id :: id in accounts ==> r.value[id] == accounts[id])
  {
    var outcome := if failure.Some? then failure
                   else if account.id in accounts then Some(UniqueViolation)
                   else None;
    match outcome
    case Some(UniqueViolation) => Err(AccountExists)
    case Some(fault) => Err(Wrapped("failed to create account", Driver(fault)))
    case None => Ok(accounts[account.id := account.balance])
  }

  /** `Create`: inserts the account, or reports why it could not. */
  method Create(db: Database, account: Account, failure: Option<DbFault>) returns (err: Option<Error>)
    modifies db
    ensures var r := Inserted(old(db.accounts), account, failure);
      && (r.Ok? ==> err == None && db.accounts == r.value)
      && (r.Err? ==> err == Some(r.error) && db.accounts == old(db.accounts))
    ensures db.transactions == old(db.transactions)
  {
    var r := Inserted(db.accounts, account, failure);
    if r.Err? {
      return Some(r.error);
    }
    db.accounts := r.value;
    return None;
  }

  /** `GetByID`: no row becomes `ErrAccountNotFound`; otherwise the stored
      account is returned. */
  function GetByID(accounts: map<int, int>, id: int, failure: Option<DbFault>): (r: Result<Account>)
    ensures failure.Some? ==> r == Err(Wrapped("failed to get account", Driver(failure.value)))
    ensures failure.None? && id !in accounts ==> r == Err(AccountNotFound)
    ensures failure.None? && id in accounts ==> r.Ok? && r.value.id == id && r.value.balance == accounts[id]
  {
    if failure.Some? then Err(Wrapped("failed to get account", Driver(failure.value)))
    else if id !in accounts then Err(AccountNotFound)
    else Ok(Account(id, accounts[id]))
  }

  /** `GetForUpdate`: the same lookup as `GetByID` inside the unit of work
      (the row lock is not modelled); only the context of a driver error
      differs. */
  function GetForUpdate(accounts: map<int, int>, id: int, failure: Option<DbFault>): (r: Result<Account>)
    ensures failure.None? ==> r == GetByID(accounts, id, None)
    ensures failure.Some? ==> r == Err(Wrapped("failed to get account for update", Driver(failure.value)))
  {
    if failure.Some? then Err(Wrapped("failed to get account for update", Driver(failure.value)))
    else if id !in accounts then Err(AccountNotFound)
    else Ok(Account(id, accounts[id]))
  }

  /** The table after `UPDATE accounts SET balance`: zero rows affected
      becomes `ErrAccountNotFound`; only the named account changes. */
  function BalanceSet(accounts: map<int, int>, id: int, newBalance: int, failure: Option<DbFault>): (r: Result<map<int, int>>)
    ensures failure.Some? ==> r == Err(Wrapped("failed to update balance", Driver(failure.value)))
    ensures failure.None? && id !in accounts ==> r == Err(AccountNotFound)
    ensures failure.None? && id in accounts ==>
      && r.Ok?
      && r.value.Keys == accounts.Keys
      && r.value[id] == newBalance
      && (forall other :: other in accounts && other != id ==> r.value[other] == accounts[other])
  {
    if failure.Some? then Err(Wrapped("failed to update balance", Driver(failure.value)))
    else if id !in accounts then Err(AccountNotFound)
    else Ok(accounts[id := newBalance])
  }

  /** `UpdateBalance`: sets one balance, or reports why it could not. */
  method UpdateBalance(db: Database, id: int, newBalance: int, failure: Option<DbFault>) returns (err: Option<Error>)
    modifies db
    ensures var r := BalanceSet(old(db.accounts), id, newBalance, failure);
      && (r.Ok? ==> err == None && db.accounts == r.value)
      && (r.Err? ==> err == Some(r.error) && db.accounts == old(db.accounts))
    ensures db.transactions == old(db.transactions)
  {
    var r := BalanceSet(db.accounts, id, newBalance, failure);
    if r.Err? {
      return Some(r.error);
    }
    db.accounts := r.value;
    return None;
  }

  /** Round trip: an account just inserted is found with its balance. */
  lemma InsertedThenFound(accounts: map<int, int>, account: Account)
    requires Inserted(accounts, account, None).Ok?
    ensures GetByID(Inserted(accounts, account, None).value, account.id, None) == Ok(account)
  {
  }

  /** Round trip: after a balance update a lookup sees the new balance, and
      every other lookup sees what it saw before. */
  lemma BalanceSetThenFound(accounts: map<int, int>, id: int, newBalance: int, other: int)
    requires id in accounts
    ensures GetByID(BalanceSet(accounts, id, newBalance, None).value, id, None) == Ok(Account(id, newBalance))
    ensures other != id ==>
      GetByID(BalanceSet(accounts, id, newBalance, None).value, other, None) == GetByID(accounts, other, None)
  {
  }
}
