/**
 * The transfer service on the store itself: `Transfer` validates, replays a
 * recorded idempotency key, opens the unit of work, runs its statements
 * against the database and commits, or restores the snapshot taken at
 * BeginTx (the deferred rollback).
 */
module TransferService {
  import opened Wrappers
  import opened Errors
  import opened Models
  import opened Store
  import opened TransferSpec
  import AccountRepo
  import TransactionRepo

  /** The unit of work on the store itself: reads, two balance writes and
      the record insert, stopping at the first error. Writes made before an
      error stay in place; `Transfer` rolls them back. */
  method RunUnitOfWork(db: Database, req: CreateTransactionRequest, amountInCents: int, key: string,
                       newId: string, faults: Faults) returns (r: Result<Transaction>)
    modifies db
    ensures r == LockedTransfer(old(db.State()), req, amountInCents, key, newId, faults).result
    ensures r.Ok? ==> db.State() == LockedTransfer(old(db.State()), req, amountInCents, key, newId, faults).after
  {
    // lock and read the source, then the destination, in request order
    var source := AccountRepo.GetForUpdate(db.accounts, req.sourceAccountId, faults.lockSource);
    if source.Err? {
      return Err(Wrapped("failed to get source account", source.error));
    }
    var destination := AccountRepo.GetForUpdate(db.accounts, req.destinationAccountId, faults.lockDestination);
    if destination.Err? {
      return Err(Wrapped("failed to get destination account", destination.error));
    }
    if source.value.balance < amountInCents {
      return Err(InsufficientFunds);
    }
    var newSourceBalance := source.value.balance - amountInCents;
    var newDestBalance := destination.value.balance + amountInCents;
    var err := AccountRepo.UpdateBalance(db, source.value.id, newSourceBalance, faults.writeSource);
    if err.Some? {
      return Err(Wrapped("failed to update source balance", err.value));
    }
    err := AccountRepo.UpdateBalance(db, destination.value.id, newDestBalance, faults.writeDestination);
    if err.Some? {
      return Err(Wrapped("failed to update destination balance", err.value));
    }
    var record := NewRecord(req, amountInCents, key, newId);
    err := TransactionRepo.Create(db, record, faults.insert);
    if err.Some? {
      return Err(Wrapped("failed to create transaction record", err.value));
    }
    return Ok(record);
  }

  /** `Transfer`. The fresh record id stands for `uuid.New()`. */
  method Transfer(db: Database, req: CreateTransactionRequest, key: string, newId: string,
                  faults: Faults) returns (r: Result<Transaction>)
    requires forall t :: t in db.transactions ==> t.id != newId
    modifies db
    ensures Outcome(r, db.State()) == Transferred(old(db.State()), req, key, newId, faults)
    ensures r.Err? ==> db.State() == old(db.State())
    ensures r.Ok? ==> Replayed(old(db.State()), key, Outcome(r, db.State()))
                      || Applied(old(db.State()), req, key, newId, Outcome(r, db.State()))
    ensures Total(db.accounts) == Total(old(db.accounts))
    ensures Consistent(old(db.State())) ==> Consistent(db.State())
  {
    var invalid := ValidateTransactionRequest(req);
    if invalid.Some? {
      return Err(invalid.value);
    }
    if key != "" {
      var existing := TransactionRepo.GetByIdempotencyKey(db.transactions, key, faults.lookup);
      if existing.Ok? {
        return existing;
      } else if !Is(existing.error, TransactionNotFound) {
        return Err(Wrapped("failed to check idempotency", existing.error));
      }
    }
    var amountInCents := FloatToCents(req.amount);
    if amountInCents <= 0 {
      return Err(InvalidAmount);
    }
    if faults.begin.Some? {
      return Err(Wrapped("failed to begin transaction", Driver(faults.begin.value)));
    }
    // BeginTx: what the deferred rollback returns to
    var snapshot := db.State();
    r := RunUnitOfWork(db, req, amountInCents, key, newId, faults);
    if r.Ok? && faults.commit.Some? {
      r := Err(Wrapped("failed to commit transaction", Driver(faults.commit.value)));
    }
    if r.Err? {
      db.Restore(snapshot);
    }
    TransferConservesTotal(snapshot, req, key, newId, faults);
    if r.Ok? {
      TransferSucceeded(snapshot, req, key, newId, faults);
    }
    if Consistent(snapshot) {
      TransferKeepsConsistent(snapshot, req, key, newId, faults);
    }
  }
}
