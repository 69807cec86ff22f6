/**
 * The specification of a money transfer as a function of the ledger: one
 * transfer runs inside a database transaction (the unit of work) whose
 * deferred rollback undoes every write unless the commit succeeds.
 *
 * The database driver's failures, which the model cannot produce itself,
 * are inputs: `Faults` names, per statement of the transfer, the error the
 * driver reports for it, if any. A `UniqueViolation` on the record insert
 * is what a concurrent request that committed the same idempotency key
 * first would cause.
 */
module TransferSpec {
  import opened Wrappers
  import opened Errors
  import opened Models
  import opened Store
  import AccountRepo
  import TransactionRepo

  datatype Faults = Faults(
    lookup: Option<DbFault>,           // the idempotency lookup
    begin: Option<DbFault>,            // BeginTx
    lockSource: Option<DbFault>,       // GetForUpdate of the source
    lockDestination: Option<DbFault>,  // GetForUpdate of the destination
    writeSource: Option<DbFault>,      // UpdateBalance of the source
    writeDestination: Option<DbFault>, // UpdateBalance of the destination
    insert: Option<DbFault>,           // the record insert
    commit: Option<DbFault>)           // Commit

  /** A run in which the database reports no failure of its own. */
  const NoFaults := Faults(None, None, None, None, None, None, None, None)

  /** What a transfer returns, and the ledger once its unit of work has
      committed or rolled back. */
  datatype Outcome = Outcome(result: Result<Transaction>, after: Ledger)

  /** The idempotency key column: NULL for an empty key. */
  function KeyColumn(key: string): (column: Option<string>)
    ensures column.Some? <==> key != ""
    ensures column.Some? ==> column.value == key
  {
    if key != "" then Some(key) else None
  }

  /** The record a successful transfer inserts: a completed movement under
      the fresh id, carrying the key column. For a valid request and a
      positive amount it is a well-formed ledger record. */
  function NewRecord(req: CreateTransactionRequest, amountInCents: int, key: string, newId: string): (record: Transaction)
    ensures record.id == newId && record.status == Completed
    ensures record.idempotencyKey.Some? <==> key != ""
    ensures ValidateTransactionRequest(req).None? && amountInCents > 0 ==> RecordsCompleted([record])
  {
    Transaction(newId, req.sourceAccountId, req.destinationAccountId, amountInCents, Completed, KeyColumn(key))
  }

  /** The statements of the unit of work, from locking the source to
      inserting the record, applied to the ledger `s` as it was at BeginTx.
      Every error leaves `s`: the deferred rollback. */
  function LockedTransfer(s: Ledger, req: CreateTransactionRequest, amountInCents: int, key: string,
                          newId: string, faults: Faults): (out: Outcome)
    ensures out.result.Err? ==> out.after == s
  {
    match AccountRepo.GetForUpdate(s.accounts, req.sourceAccountId, faults.lockSource)
    case Err(e) => Outcome(Err(Wrapped("failed to get source account", e)), s)
    case Ok(source) => (
      match AccountRepo.GetForUpdate(s.accounts, req.destinationAccountId, faults.lockDestination)
      case Err(e) => Outcome(Err(Wrapped("failed to get destination account", e)), s)
      case Ok(destination) =>
        if source.balance < amountInCents then Outcome(Err(InsufficientFunds), s)
        else
          var newSourceBalance := source.balance - amountInCents;
          var newDestBalance := destination.balance + amountInCents;
          match AccountRepo.BalanceSet(s.accounts, source.id, newSourceBalance, faults.writeSource)
          case Err(e) => Outcome(Err(Wrapped("failed to update source balance", e)), s)
          case Ok(accounts1) => (
            match AccountRepo.BalanceSet(accounts1, destination.id, newDestBalance, faults.writeDestination)
            case Err(e) => Outcome(Err(Wrapped("failed to update destination balance", e)), s)
            case Ok(accounts2) =>
              var record := NewRecord(req, amountInCents, key, newId);
              match TransactionRepo.Appended(s.transactions, record, faults.insert)
              case Err(e) => Outcome(Err(Wrapped("failed to create transaction record", e)), s)
              case Ok(transactions) => Outcome(Ok(record), Ledger(accounts2, transactions))))
  }

  /** `Transfer`, step by step: validation, idempotent replay, the cents
      check, BeginTx, the unit of work, Commit. */
  function Transferred(s: Ledger, req: CreateTransactionRequest, key: string, newId: string,
                       faults: Faults): (out: Outcome)
    // a failed call leaves the ledger as it was
    ensures out.result.Err? ==> out.after == s
    // an invalid request is refused before the store is consulted
    ensures ValidateTransactionRequest(req).Some? ==>
      out == Outcome(Err(ValidateTransactionRequest(req).value), s)
    // a recorded key replays the stored record, whatever the request says
    ensures ValidateTransactionRequest(req).None? && key != "" && faults.lookup.None?
            && TransactionRepo.GetByIdempotencyKey(s.transactions, key, None).Ok? ==>
      out == Outcome(TransactionRepo.GetByIdempotencyKey(s.transactions, key, None), s)
    // an amount that rounds to zero cents or less is refused after the replay check
    ensures ValidateTransactionRequest(req).None?
            && (key == "" || (faults.lookup.None? && TransactionRepo.FindByKey(s.transactions, key).None?))
            && FloatToCents(req.amount) <= 0 ==>
      out == Outcome(Err(InvalidAmount), s)
  {
    match ValidateTransactionRequest(req)
    case Some(invalid) => Outcome(Err(invalid), s)
    case None =>
      var existing := if key != "" then TransactionRepo.GetByIdempotencyKey(s.transactions, key, faults.lookup)
                      else Err(TransactionNotFound);
      if existing.Ok? then Outcome(existing, s)
      else if !Is(existing.error, TransactionNotFound) then
        Outcome(Err(Wrapped("failed to check idempotency", existing.error)), s)
      else
        var amountInCents := FloatToCents(req.amount);
        if amountInCents <= 0 then Outcome(Err(InvalidAmount), s)
        else if faults.begin.Some? then
          Outcome(Err(Wrapped("failed to begin transaction", Driver(faults.begin.value))), s)
        else
          var unit := LockedTransfer(s, req, amountInCents, key, newId, faults);
          if unit.result.Ok? && faults.commit.Some? then
            Outcome(Err(Wrapped("failed to commit transaction", Driver(faults.commit.value))), s)
          else unit
  }

  /** The success of a call that replayed the record stored under `key`. */
  ghost predicate Replayed(s: Ledger, key: string, out: Outcome)
  {
    && key != ""
    && out.after == s
    && out.result == TransactionRepo.GetByIdempotencyKey(s.transactions, key, None)
    && out.result.Ok?
  }

  /** The success of a call that moved the money: the key was unused, both
      accounts existed and differ, the source covered the amount, both
      balances moved by the amount, and exactly one record was appended. */
  ghost predicate Applied(s: Ledger, req: CreateTransactionRequest, key: string, newId: string, out: Outcome)
  {
    var source := req.sourceAccountId;
    var destination := req.destinationAccountId;
    var amount := FloatToCents(req.amount);
    && (key == "" || TransactionRepo.FindByKey(s.transactions, key).None?)
    && source in s.accounts && destination in s.accounts && source != destination
    && 0 < amount <= s.accounts[source]
    && out.result == Ok(NewRecord(req, amount, key, newId))
    && out.after.accounts == s.accounts[source := s.accounts[source] - amount]
                                       [destination := s.accounts[destination] + amount]
    && out.after.transactions == s.transactions + [out.result.value]
  }

  /** Every successful transfer either replays a stored record or applies
      the request; a replay needs a non-empty key. */
  lemma TransferSucceeded(s: Ledger, req: CreateTransactionRequest, key: string, newId: string, faults: Faults)
    requires Transferred(s, req, key, newId, faults).result.Ok?
    ensures ValidateTransactionRequest(req).None?
    ensures var out := Transferred(s, req, key, newId, faults);
      Replayed(s, key, out) || Applied(s, req, key, newId, out)
  {
    var out := Transferred(s, req, key, newId, faults);
    var existing := if key != "" then TransactionRepo.GetByIdempotencyKey(s.transactions, key, faults.lookup)
                    else Err(TransactionNotFound);
    if existing.Ok? {
      assert faults.lookup.None?;
      assert Replayed(s, key, out);
    } else {
      IsAgreesWithRoot(existing.error, TransactionNotFound);
      assert key != "" ==> faults.lookup.None? && existing == Err(TransactionNotFound);
      var amount := FloatToCents(req.amount);
      var record := NewRecord(req, amount, key, newId);
      assert out == LockedTransfer(s, req, amount, key, newId, faults);
      assert Applied(s, req, key, newId, out);
    }
  }

  /** The converse of `TransferSucceeded`: a valid request with an unused
      key, a positive amount, two existing accounts and a source that covers
      the amount is applied when the database reports no failure. */
  lemma TransferApplies(s: Ledger, req: CreateTransactionRequest, key: string, newId: string)
    requires ValidateTransactionRequest(req).None?
    requires key == "" || TransactionRepo.FindByKey(s.transactions, key).None?
    requires FloatToCents(req.amount) > 0
    requires req.sourceAccountId in s.accounts && req.destinationAccountId in s.accounts
    requires s.accounts[req.sourceAccountId] >= FloatToCents(req.amount)
    ensures Applied(s, req, key, newId, Transferred(s, req, key, newId, NoFaults))
  {
  }

  /** Conservation: no transfer, successful or not, changes the sum of all
      balances. */
  lemma TransferConservesTotal(s: Ledger, req: CreateTransactionRequest, key: string, newId: string, faults: Faults)
    ensures Total(Transferred(s, req, key, newId, faults).after.accounts) == Total(s.accounts)
  {
    var out := Transferred(s, req, key, newId, faults);
    if out.result.Ok? {
      TransferSucceeded(s, req, key, newId, faults);
      if !Replayed(s, key, out) {
        TotalMove(s.accounts, req.sourceAccountId, req.destinationAccountId, FloatToCents(req.amount));
      }
    }
  }

  /** A transfer keeps a consistent ledger consistent: balances stay
      non-negative, keys and record ids stay unique, and every record is a
      completed positive movement between two distinct accounts. */
  lemma TransferKeepsConsistent(s: Ledger, req: CreateTransactionRequest, key: string, newId: string, faults: Faults)
    requires Consistent(s)
    requires forall t :: t in s.transactions ==> t.id != newId
    ensures Consistent(Transferred(s, req, key, newId, faults).after)
  {
    var out := Transferred(s, req, key, newId, faults);
    if out.result.Ok? {
      TransferSucceeded(s, req, key, newId, faults);
      if !Replayed(s, key, out) {
        var ts := s.transactions;
        var ts' := out.after.transactions;
        var record := out.result.value;
        assert NonNegative(out.after.accounts);
        forall i, j | 0 <= i < j < |ts'| && ts'[i].idempotencyKey.Some?
          ensures ts'[i].idempotencyKey != ts'[j].idempotencyKey
        {
          if j == |ts| {
            assert ts'[i] == ts[i];
          }
        }
        forall i, j | 0 <= i < j < |ts'|
          ensures ts'[i].id != ts'[j].id
        {
          if j == |ts| {
            assert ts'[i] == ts[i] && ts[i] in ts;
          }
        }
        assert RecordsCompleted(ts');
      }
    }
  }

  /** Idempotency: once a call with a non-empty key has succeeded, a later
      call with that key returns the same record and changes nothing, even
      if its accounts or amount differ. */
  lemma TransferReplays(s: Ledger, req: CreateTransactionRequest, key: string, newId: string, faults: Faults,
                        later: CreateTransactionRequest, laterId: string, laterFaults: Faults)
    requires key != ""
    requires Transferred(s, req, key, newId, faults).result.Ok?
    requires ValidateTransactionRequest(later).None? && laterFaults.lookup.None?
    ensures var out := Transferred(s, req, key, newId, faults);
      Transferred(out.after, later, key, laterId, laterFaults) == Outcome(out.result, out.after)
  {
    var out := Transferred(s, req, key, newId, faults);
    TransferSucceeded(s, req, key, newId, faults);
    if !Replayed(s, key, out) {
      var record := out.result.value;
      assert TransactionRepo.Appended(s.transactions, record, None) == Ok(out.after.transactions);
      TransactionRepo.AppendedThenFound(s.transactions, record, key);
    }
  }

  /** Without an injected failure of the insert itself, the record insert
      never meets a duplicate key: the replay check has already ruled it
      out. `ErrDuplicateIdempotency` therefore only surfaces when another
      request committed the same key between the check and the insert. */
  lemma DuplicateOnlyUnderRace(s: Ledger, req: CreateTransactionRequest, key: string, newId: string, faults: Faults)
    requires faults.insert.None?
    ensures var out := Transferred(s, req, key, newId, faults);
      out.result.Err? ==> !Is(out.result.error, DuplicateIdempotency)
  {
    var out := Transferred(s, req, key, newId, faults);
    WrappingKeepsRoot();
    if out.result.Err? {
      IsAgreesWithRoot(out.result.error, DuplicateIdempotency);
    }
    var existing := if key != "" then TransactionRepo.GetByIdempotencyKey(s.transactions, key, faults.lookup)
                    else Err(TransactionNotFound);
    if ValidateTransactionRequest(req).None? && existing.Err? && Is(existing.error, TransactionNotFound) {
      IsAgreesWithRoot(existing.error, TransactionNotFound);
      assert key != "" ==> TransactionRepo.FindByKey(s.transactions, key).None?;
    }
  }

  /** An insert failure after both balance writes rolls both writes back
      and reports the duplicate key (409 at the handler). */
  lemma RaceOnInsertRollsBack(s: Ledger, req: CreateTransactionRequest, key: string, newId: string)
    requires ValidateTransactionRequest(req).None?
    requires key == "" || TransactionRepo.FindByKey(s.transactions, key).None?
    requires FloatToCents(req.amount) > 0
    requires req.sourceAccountId in s.accounts && req.destinationAccountId in s.accounts
    requires s.accounts[req.sourceAccountId] >= FloatToCents(req.amount)
    ensures Transferred(s, req, key, newId, NoFaults.(insert := Some(UniqueViolation)))
         == Outcome(Err(Wrapped("failed to create transaction record", DuplicateIdempotency)), s)
  {
  }

  /** Accounts are read source first: with both accounts missing the error
      names the source; with only the destination missing it names the
      destination. Either way the ledger is unchanged. */
  lemma MissingAccount(s: Ledger, req: CreateTransactionRequest, key: string, newId: string)
    requires ValidateTransactionRequest(req).None?
    requires key == "" || TransactionRepo.FindByKey(s.transactions, key).None?
    requires FloatToCents(req.amount) > 0
    ensures req.sourceAccountId !in s.accounts ==>
      Transferred(s, req, key, newId, NoFaults)
        == Outcome(Err(Wrapped("failed to get source account", AccountNotFound)), s)
    ensures req.sourceAccountId in s.accounts && req.destinationAccountId !in s.accounts ==>
      Transferred(s, req, key, newId, NoFaults)
        == Outcome(Err(Wrapped("failed to get destination account", AccountNotFound)), s)
  {
  }

  /** A source balance below the amount is refused with
      `ErrInsufficientFunds` and the ledger is unchanged. */
  lemma InsufficientFundsChangesNothing(s: Ledger, req: CreateTransactionRequest, key: string, newId: string)
    requires ValidateTransactionRequest(req).None?
    requires key == "" || TransactionRepo.FindByKey(s.transactions, key).None?
    requires FloatToCents(req.amount) > 0
    requires req.sourceAccountId in s.accounts && req.destinationAccountId in s.accounts
    requires s.accounts[req.sourceAccountId] < FloatToCents(req.amount)
    ensures Transferred(s, req, key, newId, NoFaults) == Outcome(Err(InsufficientFunds), s)
  {
  }
}
