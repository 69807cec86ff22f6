/**
 * The error values of the ledger: the sentinel errors of the models package,
 * the failures reported by the database driver, and error wrapping with
 * `fmt.Errorf("<context>: %w", inner)`.  Go's `errors.Is` becomes `Is`,
 * which unwraps until it meets the target.
 */
module Errors {

  /** What the database driver can report for a statement. `UniqueViolation`
      is PostgreSQL's error code 23505; `Failure` is any other driver error
      (lost connection, cancelled context, ...). */
  datatype DbFault = UniqueViolation | Failure(message: string)

  datatype Error =
    // account errors
    | AccountNotFound
    | AccountExists
    | InvalidAccountID
    | NegativeBalance
    | InsufficientFunds
    // transaction errors
    | InvalidAmount
    | SameAccount
    | TransactionNotFound
    | DuplicateIdempotency
    // an error returned by the database driver, not translated to a sentinel
    | Driver(fault: DbFault)
    // fmt.Errorf("<context>: %w", inner)
    | Wrapped(context: string, inner: Error)

  /** A Go `(value, error)` pair where exactly one side is meaningful. */
  datatype Result<+T> = Ok(value: T) | Err(error: Error)

  /** `errors.Is(err, target)`: `err` is `target` or wraps it. */
  predicate Is(err: Error, target: Error)
  {
    err == target || (err.Wrapped? && Is(err.inner, target))
  }

  /** The innermost error of a chain of wrappings. */
  function Root(err: Error): (root: Error)
    ensures !root.Wrapped?
  {
    if err.Wrapped? then Root(err.inner) else err
  }

  /** A `%w` wrapping, at any depth, keeps the innermost error. */
  lemma WrappingKeepsRoot()
    ensures forall context, err :: Root(Wrapped(context, err)) == Root(err)
  {
  }

  /** Against a target that is not itself a wrapping, `errors.Is` decides
      exactly whether the innermost error is that target. */
  lemma {:induction false} IsAgreesWithRoot(err: Error, target: Error)
    requires !target.Wrapped?
    ensures Is(err, target) <==> Root(err) == target
  {
    if err.Wrapped? {
      IsAgreesWithRoot(err.inner, target);
    }
  }
}
