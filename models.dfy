/**
 * The records of the ledger and the validation of incoming requests.
 * Amounts and balances arrive from JSON as decimal currency values (`real`
 * here) and are stored as integer cents.
 */
module Models {
  import opened Wrappers
  import opened Errors

  /** A row of the accounts table; `balance` is in cents. */
  datatype Account = Account(id: int, balance: int)

  /** A row of the transactions table; `amount` is in cents and
      `idempotencyKey` is `None` for a SQL NULL. */
  datatype Transaction = Transaction(
    id: string,
    sourceAccountId: int,
    destinationAccountId: int,
    amount: int,
    status: string,
    idempotencyKey: Option<string>)

  datatype CreateAccountRequest = CreateAccountRequest(accountId: int, initialBalance: real)

  datatype CreateTransactionRequest = CreateTransactionRequest(
    sourceAccountId: int,
    destinationAccountId: int,
    amount: real)

  /** The status every committed transfer record carries. */
  const Completed: string := "completed"

  /** `CreateAccountRequest.Validate`: the id check comes before the
      balance check, and a zero balance is accepted. */
  function ValidateAccountRequest(req: CreateAccountRequest): (err: Option<Error>)
    ensures err == Some(InvalidAccountID) <==> req.accountId <= 0
    ensures err == Some(NegativeBalance) <==> req.accountId > 0 && req.initialBalance < 0.0
    ensures err == None <==> req.accountId > 0 && req.initialBalance >= 0.0
  {
    if req.accountId <= 0 then Some(InvalidAccountID)
    else if req.initialBalance < 0.0 then Some(NegativeBalance)
    else None
  }

  /** `CreateTransactionRequest.Validate`: an id error takes precedence over
      the same-account check, which takes precedence over the amount check. */
  function ValidateTransactionRequest(req: CreateTransactionRequest): (err: Option<Error>)
    ensures err == Some(InvalidAccountID) <==>
      req.sourceAccountId <= 0 || req.destinationAccountId <= 0
    ensures err == Some(SameAccount) <==>
      req.sourceAccountId > 0 && req.destinationAccountId > 0
      && req.sourceAccountId == req.destinationAccountId
    ensures err == Some(InvalidAmount) <==>
      req.sourceAccountId > 0 && req.destinationAccountId > 0
      && req.sourceAccountId != req.destinationAccountId && req.amount <= 0.0
    ensures err == None <==>
      req.sourceAccountId > 0 && req.destinationAccountId > 0
      && req.sourceAccountId != req.destinationAccountId && req.amount > 0.0
  {
    if req.sourceAccountId <= 0 || req.destinationAccountId <= 0 then Some(InvalidAccountID)
    else if req.sourceAccountId == req.destinationAccountId then Some(SameAccount)
    else if req.amount <= 0.0 then Some(InvalidAmount)
    else None
  }

  /** `FloatToCents`: `math.Round(amount * 100)`, the integer nearest to
      `amount * 100` with halves rounded away from zero. */
  function FloatToCents(amount: real): (cents: int)
    ensures amount >= 0.0 ==> amount * 100.0 - 0.5 < cents as real <= amount * 100.0 + 0.5
    ensures amount < 0.0 ==> amount * 100.0 - 0.5 <= cents as real < amount * 100.0 + 0.5
    ensures amount >= 0.0 ==> cents >= 0
    ensures amount <= 0.0 ==> cents <= 0
  {
    var x := amount * 100.0;
    if x >= 0.0 then (x + 0.5).Floor else -((0.5 - x).Floor)
  }
}
