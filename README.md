# Financial ledger: the money-transfer path

This project models the core of a small ledger service written in Go.
Accounts hold balances in integer cents. A transfer moves cents from a
source account to a destination account inside one database transaction,
and appends one "completed" transaction record. An optional idempotency key
lets a client retry a transfer: a key already on record returns the stored
record and moves no money.

The model is sequential and in memory:

- The database is a `Store.Database` object with two fields: the accounts
  table (`map<int, int>`, account id to cents) and the transactions table
  (`seq<Transaction>`, in insertion order). `Store.Ledger` is the same pair
  as a value.
- The repositories' SQL becomes map and sequence operations.
  - Lookups (`GetByID`, `GetForUpdate`, `GetByIdempotencyKey`) are functions
    of the table they query.
  - Writes (`Create`, `UpdateBalance`) are methods on the database. Each is
    proved against a function that computes the new table (`Inserted`,
    `BalanceSet`, `Appended`).
- The unit of work is "snapshot, run, restore on error".
  - `TransferService.Transfer` takes a snapshot at BeginTx and runs the
    statements in `RunUnitOfWork`.
  - On any error it restores the snapshot, which is the deferred
    `tx.Rollback()`.
  - `TransferSpec.Transferred` is the same transfer as a function of the
    ledger. The method is proved equal to it. Conservation, the ledger
    invariants and idempotent replay are proved about it.
- The database driver's own failures are inputs. These are a lost
  connection, a failed commit, or a unique-key violation caused by a
  concurrent request. Each repository call takes an `Option<DbFault>`, and
  a transfer takes `Faults`, one entry per statement. Every error branch of
  the Go code can therefore be reached, except the failure of
  `RowsAffected` in `UpdateBalance` (see "Left out").
  - `DbFault.UniqueViolation` stands for PostgreSQL error code 23505.
- Go's `errors.Is` over `fmt.Errorf("...: %w", err)` chains becomes
  `Errors.Is` over the `Wrapped(context, inner)` constructor.
  `Errors.IsAgreesWithRoot` shows that `Is` decides the innermost error.
- JSON amounts and balances are `real`. `Models.FloatToCents` is
  `math.Round(x * 100)`, computed exactly: round to nearest, halves away
  from zero.

In three places the code departs from what a ledger of this kind usually
promises (a canonical lock order, a re-lookup after a duplicate key, a
check that a replayed request matches the stored one). The model follows
the code:

- Account rows are read, and so locked, source first and destination second,
  in request order. The code applies no canonical order by account id.
- A duplicate key on the record insert is returned as an error wrapping
  `ErrDuplicateIdempotency` (409 at the handler). The code does not look up
  and return the winning record. `TransferSpec.DuplicateOnlyUnderRace`
  proves that in a sequential run this branch is reached only through an
  injected insert failure, that is, through a concurrent commit of the
  same key.
- The replay path returns the stored record without comparing its accounts
  or amount with the new request (`TransferSpec.TransferReplays`).

## Model

| member | source | states |
|---|---|---|
| `Errors.Root` | internal/handler/response.go:33-57 | the innermost error of a chain is never itself a wrapping |
| `Errors.WrappingKeepsRoot` | internal/service/transfer_service.go:42-127 | a further `%w` wrapping keeps the innermost error |
| `Errors.IsAgreesWithRoot` | internal/handler/response.go:33-57 | `errors.Is(err, sentinel)` holds exactly when the innermost error of the wrapping chain is that sentinel |
| `Models.ValidateAccountRequest` | internal/models/account.go:38-46 | id ≤ 0 gives `ErrInvalidAccountID`; a valid id with a negative balance gives `ErrNegativeBalance`; a zero balance is accepted; the id check comes first (each as an iff) |
| `Models.ValidateTransactionRequest` | internal/models/transaction.go:50-61 | either id ≤ 0 gives `ErrInvalidAccountID`; equal positive ids give `ErrSameAccount`; otherwise amount ≤ 0 gives `ErrInvalidAmount`; no error iff both ids are positive and distinct and the amount is positive |
| `Models.FloatToCents` | internal/models/conversions.go:14-16 | the result is the integer nearest to amount·100, with halves rounded away from zero; its sign follows the amount's |
| `Store.Database.Restore` | internal/service/transfer_service.go:69 | the rollback returns the whole store to the snapshot |
| `AccountRepo.Inserted` | internal/repository/account_repo.go:24-39 | an existing id (or a 23505 violation) gives `ErrAccountExists` and no table; other driver errors are wrapped; a new id adds exactly that account with its balance and keeps every other entry |
| `AccountRepo.Create` | internal/repository/account_repo.go:24-39 | the table becomes `Inserted`'s on success and is unchanged on error; the transactions table is untouched |
| `AccountRepo.GetByID` | internal/repository/account_repo.go:43-65 | an absent id gives `ErrAccountNotFound`; a present id gives the stored account; a driver error is wrapped |
| `AccountRepo.GetForUpdate` | internal/repository/account_repo.go:70-93 | same result as `GetByID` when the driver does not fail; only the wrap context of a driver error differs |
| `AccountRepo.BalanceSet` | internal/repository/account_repo.go:97-118 | zero affected rows (absent id) gives `ErrAccountNotFound`; otherwise only the named balance changes and the key set is kept |
| `AccountRepo.UpdateBalance` | internal/repository/account_repo.go:97-118 | the table becomes `BalanceSet`'s on success and is unchanged on error; the transactions table is untouched |
| `AccountRepo.InsertedThenFound` | internal/repository/account_repo.go:24-65 | round trip: an inserted account is found with its balance |
| `AccountRepo.BalanceSetThenFound` | internal/repository/account_repo.go:43-118 | after an update the lookup sees the new balance, and lookups of other ids are unchanged |
| `TransactionRepo.FindByKey` | internal/repository/transaction_repo.go:54-58 | the first record whose key equals the argument, or none when no record carries it |
| `TransactionRepo.Appended` | internal/repository/transaction_repo.go:24-49 | a key already present (or a 23505 violation) gives `ErrDuplicateIdempotency` (iff, when the driver does not fail); other driver errors are wrapped; without a driver error an insert whose key is NULL or unused succeeds; success appends the record as given and keeps earlier records |
| `TransactionRepo.Create` | internal/repository/transaction_repo.go:24-49 | the table becomes `Appended`'s on success and is unchanged on error; balances are untouched |
| `TransactionRepo.GetByIdempotencyKey` | internal/repository/transaction_repo.go:53-84 | the result is a stored record whose key is set to the argument; `ErrTransactionNotFound` iff no record has that key; a driver error is wrapped |
| `TransactionRepo.LookupIsUnique` | internal/repository/transaction_repo.go:53-84 | with unique keys the lookup returns the one record carrying the key |
| `TransactionRepo.AppendedThenFound` | internal/repository/transaction_repo.go:24-84 | round trip: after a successful insert with key k, the lookup of k returns that record |
| `TransactionRepo.AppendedKeepsKeysUnique` | internal/repository/transaction_repo.go:41-45 | an insert keeps idempotency keys unique |
| `AccountService.Registered` | internal/service/account_service.go:24-44 | an invalid request returns the validation error; an existing id, or a 23505 violation, returns an error wrapping `ErrAccountExists`; any other driver error comes back wrapped by both the repository and the service; success needs no driver error and a new id, and adds exactly that account with the converted balance; non-negative balances stay non-negative |
| `AccountService.CreateAccount` | internal/service/account_service.go:24-44 | the store becomes `Registered`'s on success and is unchanged on error; a consistent ledger stays consistent |
| `AccountService.GetAccountBalance` | internal/service/account_service.go:48-63 | id ≤ 0 gives `ErrInvalidAccountID` whatever the store holds; an absent id gives `ErrAccountNotFound` unwrapped; a present id gives its balance |
| `AccountService.AtMostOneCreation` | tests/integration/concurrency_test.go:216-245 | of repeated creations of one id at most one succeeds, and none does if the id exists |
| `AccountService.ExactlyOneCreation` | tests/integration/concurrency_test.go:216-245 | for a new id whose first request is valid, exactly one of the repeated creations succeeds |
| `Handler.ErrorReply` | internal/handler/response.go:28-61 | not-found gives 404; account-exists and duplicate-key give 409; the four validation errors give 400; insufficient funds gives 422; transaction-not-found and driver errors give 500 "Internal server error"; every case is decided by the innermost error |
| `Handler.WrappingKeepsReply` | internal/handler/response.go:33-58 | wrapping an error never changes the status or message |
| `Handler.ReplyStatuses` | internal/handler/response.go:29-57 | every reply status is 400, 404, 409, 422 or 500 |
| `TransferSpec.KeyColumn` | internal/service/transfer_service.go:103-106 | the key column is set iff the key is non-empty, and then holds the key |
| `TransferSpec.NewRecord` | internal/service/transfer_service.go:102-115 | the inserted record carries the fresh id, status "completed" and a key column set iff the key is non-empty; for a valid request and a positive amount it is a completed movement between two distinct valid accounts |
| `TransferSpec.LockedTransfer` | internal/service/transfer_service.go:71-119 | every error of the unit of work leaves the ledger as it was at BeginTx |
| `TransferSpec.Transferred` | internal/service/transfer_service.go:35-129 | a failed call leaves the ledger unchanged; an invalid request is refused before any lookup; a recorded key replays the stored record, whatever the request; an amount of ≤ 0 cents gives `ErrInvalidAmount` after the replay check |
| `TransferSpec.TransferSucceeded` | internal/service/transfer_service.go:41-128 | every success is either a replay (non-empty key, ledger unchanged) or an application: key unused, both accounts present and distinct, funds sufficient, source down and destination up by the amount, others unchanged, one record with the fresh id, both ids, the cents, "completed" and the key column appended |
| `TransferSpec.TransferApplies` | internal/service/transfer_service.go:58-128 | the converse of `TransferSucceeded`: a valid request with an unused key, a positive amount in cents, two existing accounts and a source covering the amount is applied when the database reports no failure |
| `TransferSpec.TransferConservesTotal` | internal/service/transfer_service.go:88-100 | the sum of all balances is the same after any transfer, successful or not |
| `TransferSpec.TransferKeepsConsistent` | internal/service/transfer_service.go:84-119 | given a fresh record id, balances stay non-negative, keys and ids stay unique, and every record stays a completed positive movement between distinct accounts |
| `TransferSpec.TransferReplays` | internal/service/transfer_service.go:45-56 | after a success under key k, a later valid call with k returns the same record and changes nothing, even with other accounts or amount |
| `TransferSpec.DuplicateOnlyUnderRace` | internal/service/transfer_service.go:46-119 | without an injected insert failure no transfer returns an error that is `ErrDuplicateIdempotency` |
| `TransferSpec.RaceOnInsertRollsBack` | internal/service/transfer_service.go:117-119 | a duplicate-key insert failure after both balance writes returns the wrapped `ErrDuplicateIdempotency` and undoes both writes |
| `TransferSpec.MissingAccount` | internal/service/transfer_service.go:71-81 | a missing source is reported first (as a wrapped `ErrAccountNotFound`), then a missing destination; the ledger is unchanged |
| `TransferSpec.InsufficientFundsChangesNothing` | internal/service/transfer_service.go:83-86 | a source balance below the amount gives `ErrInsufficientFunds` and leaves the ledger unchanged |
| `TransferService.RunUnitOfWork` | internal/service/transfer_service.go:71-119 | the statements of the unit of work on the store return `LockedTransfer`'s result and, on success, leave its ledger |
| `TransferService.Transfer` | internal/service/transfer_service.go:35-129 | the call returns `Transferred`'s result and leaves its ledger; an error leaves the store unchanged; a success is a replay or an application; the total is conserved; a consistent store stays consistent |
| `TransferScenarios.RepeatReplays` | internal/service/transfer_service.go:45-50 | once a key is recorded, every further submission under it returns the stored record and leaves the ledger alone |
| `TransferScenarios.RepeatConservesTotal` | internal/service/transfer_service.go:88-100 | any run of transfers, successful or not, keeps the sum of all balances |
| `TransferScenarios.RepeatedKeyAppliesOnce` | tests/integration/concurrency_test.go:146-212 | N submissions under one key all return the first call's record, and the ledger ends as the first call left it |
| `TransferScenarios.Drain` | internal/service/transfer_service.go:83-100 | with 2500·k cents at the source, exactly min(k, attempts) of the repeated 2500-cent transfers succeed, and the source ends empty |
| `TransferScenarios.FortyTransfers` | tests/integration/concurrency_test.go:80-142 | from 1000.00, repeated 25.00 transfers succeed exactly 40 times, ending at 0 and 1000.00 |
| `TransferScenarios.TransferScenario` | tests/integration/api_test.go:122-175 | 250.50 from 1000.00 to 500.00 leaves 749.50 and 750.50 and records 25050 cents |
| `TransferScenarios.SubCentAmountRefused` | internal/service/transfer_service.go:58-62 | 0.004 passes validation but rounds to 0 cents and is refused with `ErrInvalidAmount` |
| `TransferScenarios.InsufficientFundsScenario` | tests/integration/api_test.go:177-205 | 100.00 from 50.00 is refused with 422 and moves nothing |
| `TransferScenarios.IdempotencyScenario` | tests/integration/api_test.go:207-261 | two submissions under "test-key-123" return one record and debit the source once |
| `TransferScenarios.TransferThroughServices` | tests/integration/api_test.go:122-175 | on a fresh store, creating both accounts and transferring 250.50 through the service methods gives the record and balances above |

## Left out

- Concurrency: row locks (`FOR UPDATE`), lock order and deadlock, and
  isolation between concurrent units of work. The model runs one call at a
  time. A race shows up only as an injected driver failure.
- Context cancellation and timeouts. A cancelled context shows up only as a
  `DbFault.Failure`.
- `Models.FloatToCents`: it rounds the exact real amount·100, not the
  float64 product. It also has no int64 overflow or truncation. Balances
  and amounts are unbounded integers, so destination overflow is not
  modelled, just as the code does not check it.
- `ToResponse` and `CentsToFloat`. Results carry cents, not float
  currency.
- Timestamps (`created_at`, `updated_at`, `NOW()`), the SQL text, and the
  `RowsAffected` error branch of `UpdateBalance`.
- `TransactionRepo.GetByIdempotencyKey`: an SQL `QueryRow` without
  `ORDER BY` may return any matching row. The model returns the first. The
  two agree whenever keys are unique, which the insert keeps
  (`LookupIsUnique`).
- The table schema is not part of this model. Only the primary key on
  account ids and the unique constraint on idempotency keys are modelled.
  Record-id freshness (`uuid.New()`) is a precondition of
  `TransferService.Transfer`.
- HTTP routing, JSON decoding and encoding, `sendJSON`, logging, and the
  handlers in internal/handler/account_handler.go and
  internal/handler/transaction_handler.go.
- Process start-up, shutdown and migrations (cmd/api/main.go,
  cmd/migrate/main.go).
