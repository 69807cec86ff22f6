/**
 * The account service: account creation (validation, cents conversion,
 * insert) and the balance lookup behind `GET /accounts/{id}`.
 */
module AccountService {
  import opened Wrappers
  import opened Errors
  import opened Models
  import opened Store
  import AccountRepo

  /** The accounts table after `CreateAccount`, or the error it returns. */
  function Registered(accounts: map<int, int>, req: CreateAccountRequest, failure: Option<DbFault>): (r: Result<map<int, int>>)
    ensures ValidateAccountRequest(req).Some? ==> r == Err(ValidateAccountRequest(req).value)
    ensures ValidateAccountRequest(req).None? && failure.None? && req.accountId in accounts ==>
      r == Err(Wrapped("failed to create account", AccountExists))
    ensures ValidateAccountRequest(req).None? && failure.None? && req.accountId !in accounts ==>
      && r.Ok?
      && r.value.Keys == accounts.Keys + {req.accountId}
      && r.value[req.accountId] == FloatToCents(req.initialBalance)
      && (forall id :: id in accounts ==> r.value[id] == accounts[id])
    // a primary-key violation reported by the driver (the losing side of a
    // concurrent create) is the same wrapped `ErrAccountExists`
    ensures ValidateAccountRequest(req).None? && failure == Some(UniqueViolation) ==>
      r == Err(Wrapped("failed to create account", AccountExists))
    // any other driver error is wrapped twice, once by the repository and
    // once by the service
    ensures ValidateAccountRequest(req).None? && failure.Some? && failure.value.Failure? ==>
      r == Err(Wrapped("failed to create account", Wrapped("failed to create account", Driver(failure.value))))
    ensures r.Ok? ==> ValidateAccountRequest(req).None? && failure.None? && req.accountId !in accounts
    ensures r.Ok? && NonNegative(accounts) ==> NonNegative(r.value)
  {
    match ValidateAccountRequest(req)
    case Some(invalid) => Err(invalid)
    case None =>
      var balanceInCents := FloatToCents(req.initialBalance);
      match AccountRepo.Inserted(accounts, Account(req.accountId, balanceInCents), failure)
      case Err(e) => Err(Wrapped("failed to create account", e))
      case Ok(table) => Ok(table)
  }

  /** `CreateAccount`: the store gains the account or is left unchanged. */
  method CreateAccount(db: Database, req: CreateAccountRequest, failure: Option<DbFault>) returns (err: Option<Error>)
    modifies db
    ensures var r := Registered(old(db.accounts), req, failure);
      && (r.Ok? ==> err == None && db.accounts == r.value)
      && (r.Err? ==> err == Some(r.error) && db.accounts == old(db.accounts))
    ensures db.transactions == old(db.transactions)
    ensures Consistent(old(db.State())) ==> Consistent(db.State())
  {
    var invalid := ValidateAccountRequest(req);
    if invalid.Some? {
      return invalid;
    }
    var balanceInCents := FloatToCents(req.initialBalance);
    err := AccountRepo.Create(db, Account(req.accountId, balanceInCents), failure);
    if err.Some? {
      err := Some(Wrapped("failed to create account", err.value));
    }
  }

  /** `GetAccountBalance`: a non-positive id is refused before the store is
      consulted; a missing account is reported unwrapped. */
  function GetAccountBalance(accounts: map<int, int>, id: int, failure: Option<DbFault>): (r: Result<Account>)
    ensures id <= 0 ==> r == Err(InvalidAccountID)
    ensures id > 0 && failure.None? && id !in accounts ==> r == Err(AccountNotFound)
    ensures id > 0 && failure.None? && id in accounts ==> r == Ok(Account(id, accounts[id]))
    ensures id > 0 && failure.Some? ==> r.Err? && Root(r.error) == Driver(failure.value)
  {
    if id <= 0 then Err(InvalidAccountID)
    else AccountRepo.GetByID(accounts, id, failure)
  }

  /** The number of successful creations when `reqs` are submitted in turn. */
  function Creations(accounts: map<int, int>, reqs: seq<CreateAccountRequest>): nat
    decreases |reqs|
  {
    if reqs == [] then 0
    else
      match Registered(accounts, reqs[0], None)
      case Ok(table) => 1 + Creations(table, reqs[1..])
      case Err(_) => Creations(accounts, reqs[1..])
  }

  /** Of repeated creations of one id, at most one succeeds, and none does
      if the id already exists. */
  lemma {:induction false} AtMostOneCreation(accounts: map<int, int>, reqs: seq<CreateAccountRequest>, id: int)
    requires forall i :: 0 <= i < |reqs| ==> reqs[i].accountId == id
    ensures Creations(accounts, reqs) <= 1
    ensures id in accounts ==> Creations(accounts, reqs) == 0
    decreases |reqs|
  {
    if reqs != [] {
      var rest := reqs[1..];
      assert forall i :: 0 <= i < |rest| ==> rest[i].accountId == id by {
        forall i | 0 <= i < |rest| ensures rest[i].accountId == id {
          assert rest[i] == reqs[i + 1];
        }
      }
      match Registered(accounts, reqs[0], None)
      case Ok(table) =>
        assert id in table;
        AtMostOneCreation(table, rest, id);
      case Err(_) =>
        AtMostOneCreation(accounts, rest, id);
    }
  }

  /** The other half of `AtMostOneCreation`: for a new id whose first
      request is valid, exactly one of the repeated creations succeeds. */
  lemma ExactlyOneCreation(accounts: map<int, int>, reqs: seq<CreateAccountRequest>, id: int)
    requires forall i :: 0 <= i < |reqs| ==> reqs[i].accountId == id
    requires id !in accounts
    requires |reqs| > 0 && ValidateAccountRequest(reqs[0]).None?
    ensures Creations(accounts, reqs) == 1
  {
    var table := Registered(accounts, reqs[0], None).value;
    var rest := reqs[1..];
    assert forall i :: 0 <= i < |rest| ==> rest[i].accountId == id by {
      forall i | 0 <= i < |rest| ensures rest[i].accountId == id {
        assert rest[i] == reqs[i + 1];
      }
    }
    AtMostOneCreation(table, rest, id);
  }
}
