/**
 * The classification inside `sendError`: which HTTP status and message a
 * handler sends for an error returned by the services.
 */
module Handler {
  import opened Errors

  datatype Reply = Reply(status: int, message: string)

  const StatusBadRequest := 400
  const StatusNotFound := 404
  const StatusConflict := 409
  const StatusUnprocessableEntity := 422
  const StatusInternalServerError := 500

  /** The `switch` of `sendError`, case by case with `errors.Is`: a wrapped
      error is answered as the innermost error it wraps, and everything that
      is not a domain error (`ErrTransactionNotFound`, driver errors) is an
      internal server error. */
  function ErrorReply(err: Error): (reply: Reply)
    ensures Root(err) == AccountNotFound ==> reply == Reply(404, "Account not found")
    ensures Root(err) == AccountExists ==> reply == Reply(409, "Account already exists")
    ensures Root(err) == InvalidAccountID ==> reply == Reply(400, "Invalid account ID")
    ensures Root(err) == NegativeBalance ==> reply == Reply(400, "Balance cannot be negative")
    ensures Root(err) == InsufficientFunds ==> reply == Reply(422, "Insufficient funds")
    ensures Root(err) == InvalidAmount ==> reply == Reply(400, "Amount must be positive")
    ensures Root(err) == SameAccount ==> reply == Reply(400, "Cannot transfer to same account")
    ensures Root(err) == DuplicateIdempotency ==> reply == Reply(409, "Duplicate idempotency key")
    ensures Root(err) == TransactionNotFound || Root(err).Driver? ==>
      reply == Reply(500, "Internal server error")
  {
    IsAgreesWithRoot(err, AccountNotFound);
    IsAgreesWithRoot(err, AccountExists);
    IsAgreesWithRoot(err, InvalidAccountID);
    IsAgreesWithRoot(err, NegativeBalance);
    IsAgreesWithRoot(err, InsufficientFunds);
    IsAgreesWithRoot(err, InvalidAmount);
    IsAgreesWithRoot(err, SameAccount);
    IsAgreesWithRoot(err, DuplicateIdempotency);
    if Is(err, AccountNotFound) then Reply(StatusNotFound, "Account not found")
    else if Is(err, AccountExists) then Reply(StatusConflict, "Account already exists")
    else if Is(err, InvalidAccountID) then Reply(StatusBadRequest, "Invalid account ID")
    else if Is(err, NegativeBalance) then Reply(StatusBadRequest, "Balance cannot be negative")
    else if Is(err, InsufficientFunds) then Reply(StatusUnprocessableEntity, "Insufficient funds")
    else if Is(err, InvalidAmount) then Reply(StatusBadRequest, "Amount must be positive")
    else if Is(err, SameAccount) then Reply(StatusBadRequest, "Cannot transfer to same account")
    else if Is(err, DuplicateIdempotency) then Reply(StatusConflict, "Duplicate idempotency key")
    else Reply(StatusInternalServerError, "Internal server error")
  }

  /** Wrapping never changes the reply. */
  lemma {:induction false} WrappingKeepsReply(context: string, err: Error)
    ensures ErrorReply(Wrapped(context, err)) == ErrorReply(err)
  {
    assert Root(Wrapped(context, err)) == Root(err);
    var r := Root(err);
    assert r.AccountNotFound? || r.AccountExists? || r.InvalidAccountID? || r.NegativeBalance?
      || r.InsufficientFunds? || r.InvalidAmount? || r.SameAccount? || r.DuplicateIdempotency?
      || r.TransactionNotFound? || r.Driver?;
  }

  /** Every reply is one of the five statuses the handlers use. */
  lemma ReplyStatuses(err: Error)
    ensures ErrorReply(err).status in {400, 404, 409, 422, 500}
  {
    var r := Root(err);
    assert r.AccountNotFound? || r.AccountExists? || r.InvalidAccountID? || r.NegativeBalance?
      || r.InsufficientFunds? || r.InvalidAmount? || r.SameAccount? || r.DuplicateIdempotency?
      || r.TransactionNotFound? || r.Driver?;
  }
}
