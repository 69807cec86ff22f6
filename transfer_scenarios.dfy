/**
 * Sequences of transfers: repeated submissions under one idempotency key,
 * draining an account by repeated transfers, and the worked examples the
 * service's tests use.
 */
module TransferScenarios {
  import opened Wrappers
  import opened Errors
  import opened Models
  import opened Store
  import opened TransferSpec
  import TransactionRepo
  import AccountService
  import TransferService
  import Handler

  /** The results of submitting `req` once per id in `ids`, one after the
      other, and the ledger at the end. */
  datatype Run = Run(results: seq<Result<Transaction>>, final: Ledger)

  function Repeat(s: Ledger, req: CreateTransactionRequest, key: string, ids: seq<string>): (run: Run)
    ensures |run.results| == |ids|
    decreases |ids|
  {
    if ids == [] then Run([], s)
    else
      var out := Transferred(s, req, key, ids[0], NoFaults);
      var rest := Repeat(out.after, req, key, ids[1..]);
      Run([out.result] + rest.results, rest.final)
  }

  function Successes(results: seq<Result<Transaction>>): nat
  {
    if results == [] then 0
    else (if results[0].Ok? then 1 else 0) + Successes(results[1..])
  }

  /** Once a key is recorded, every further submission under it returns
      the stored record and leaves the ledger alone. */
  lemma {:induction false} RepeatReplays(s: Ledger, req: CreateTransactionRequest, key: string,
                                         ids: seq<string>, record: Transaction)
    requires ValidateTransactionRequest(req).None? && key != ""
    requires TransactionRepo.GetByIdempotencyKey(s.transactions, key, None) == Ok(record)
    ensures forall i :: 0 <= i < |ids| ==> Repeat(s, req, key, ids).results[i] == Ok(record)
    ensures Repeat(s, req, key, ids).final == s
    decreases |ids|
  {
    if ids != [] {
      RepeatReplays(s, req, key, ids[1..], record);
    }
  }

  /** However many of the submissions succeed, a run of transfers never
      changes the sum of all balances. */
  lemma {:induction false} RepeatConservesTotal(s: Ledger, req: CreateTransactionRequest, key: string,
                                                ids: seq<string>)
    ensures Total(Repeat(s, req, key, ids).final.accounts) == Total(s.accounts)
    decreases |ids|
  {
    if ids != [] {
      var out := Transferred(s, req, key, ids[0], NoFaults);
      TransferConservesTotal(s, req, key, ids[0], NoFaults);
      RepeatConservesTotal(out.after, req, key, ids[1..]);
    }
  }

  /** Submitting one request N times under one key applies it once: every
      call returns the first call's record, and the ledger ends as the
      first call left it. */
  lemma RepeatedKeyAppliesOnce(s: Ledger, req: CreateTransactionRequest, key: string, ids: seq<string>)
    requires key != "" && |ids| > 0
    requires Transferred(s, req, key, ids[0], NoFaults).result.Ok?
    ensures var first := Transferred(s, req, key, ids[0], NoFaults);
      && (forall i :: 0 <= i < |ids| ==> Repeat(s, req, key, ids).results[i] == first.result)
      && Repeat(s, req, key, ids).final == first.after
  {
    var first := Transferred(s, req, key, ids[0], NoFaults);
    TransferSucceeded(s, req, key, ids[0], NoFaults);
    TransferReplays(s, req, key, ids[0], NoFaults, req, ids[0], NoFaults);
    var run := Repeat(s, req, key, ids);
    var rest := Repeat(first.after, req, key, ids[1..]);
    assert run.results == [first.result] + rest.results;
    RepeatReplays(first.after, req, key, ids[1..], first.result.value);
  }

  /** The request of the draining test: 25.00 from account 1 to account 2. */
  const Drain25 := CreateTransactionRequest(1, 2, 25.0)

  /** With 2500 * k cents at the source, exactly the first k of the
      repeated 2500-cent transfers succeed; the source ends empty once there
      were at least k attempts. */
  lemma {:induction false} Drain(k: nat, d: int, ts: seq<Transaction>, ids: seq<string>)
    ensures var run := Repeat(Ledger(map[1 := 2500 * k, 2 := d], ts), Drain25, "", ids);
      && Successes(run.results) == (if |ids| < k then |ids| else k)
      && (|ids| >= k ==> run.final.accounts == map[1 := 0, 2 := d + 2500 * k])
    decreases |ids|
  {
    var s := Ledger(map[1 := 2500 * k, 2 := d], ts);
    assert FloatToCents(25.0) == 2500;
    if ids != [] {
      var out := Transferred(s, Drain25, "", ids[0], NoFaults);
      var run := Repeat(s, Drain25, "", ids);
      assert run.results == [out.result] + Repeat(out.after, Drain25, "", ids[1..]).results;
      assert run.results[1..] == Repeat(out.after, Drain25, "", ids[1..]).results;
      if k > 0 {
        var record := NewRecord(Drain25, 2500, "", ids[0]);
        assert out == Outcome(Ok(record), Ledger(map[1 := 2500 * (k - 1), 2 := d + 2500], ts + [record]));
        Drain(k - 1, d + 2500, ts + [record], ids[1..]);
      } else {
        assert out == Outcome(Err(InsufficientFunds), s);
        Drain(0, d, ts, ids[1..]);
      }
    }
  }

  /** From a balance of 1000.00, repeated transfers of 25.00 succeed exactly
      40 times, leaving the source at 0 and the destination with it all. */
  lemma FortyTransfers(ids: seq<string>)
    requires |ids| >= 40
    ensures var run := Repeat(Ledger(map[1 := 100000, 2 := 0], []), Drain25, "", ids);
      Successes(run.results) == 40 && run.final.accounts == map[1 := 0, 2 := 100000]
  {
    var start := Ledger(map[1 := 2500 * 40, 2 := 0], []);
    assert start == Ledger(map[1 := 100000, 2 := 0], []);
    Drain(40, 0, [], ids);
    assert Repeat(start, Drain25, "", ids).final.accounts == map[1 := 0, 2 := 0 + 2500 * 40];
  }

  /** 250.50 from an account holding 1000.00 to one holding 500.00 leaves
      749.50 and 750.50 and records 25050 cents. */
  lemma TransferScenario(id: string)
    ensures Transferred(Ledger(map[1 := 100000, 2 := 50000], []), CreateTransactionRequest(1, 2, 250.50), "", id, NoFaults)
         == Outcome(Ok(Transaction(id, 1, 2, 25050, Completed, None)),
                    Ledger(map[1 := 74950, 2 := 75050], [Transaction(id, 1, 2, 25050, Completed, None)]))
  {
    assert FloatToCents(250.50) == 25050;
  }

  /** An amount that passes validation can still round to zero cents and be
      refused with `ErrInvalidAmount`. */
  lemma SubCentAmountRefused(s: Ledger, newId: string)
    ensures ValidateTransactionRequest(CreateTransactionRequest(1, 2, 0.004)).None?
    ensures Transferred(s, CreateTransactionRequest(1, 2, 0.004), "", newId, NoFaults)
         == Outcome(Err(InvalidAmount), s)
  {
    assert FloatToCents(0.004) == 0;
  }

  /** 100.00 from an account holding 50.00 is refused, answered with 422,
      and moves nothing. */
  lemma InsufficientFundsScenario(id: string)
    ensures var s := Ledger(map[1 := 5000, 2 := 10000], []);
      var out := Transferred(s, CreateTransactionRequest(1, 2, 100.0), "", id, NoFaults);
      && out == Outcome(Err(InsufficientFunds), s)
      && Handler.ErrorReply(out.result.error) == Handler.Reply(422, "Insufficient funds")
  {
    assert FloatToCents(100.0) == 10000;
  }

  /** The same request submitted twice under one key returns one record
      and debits the source once. */
  lemma IdempotencyScenario(firstId: string, secondId: string)
    ensures var s := Ledger(map[1 := 100000, 2 := 50000], []);
      var req := CreateTransactionRequest(1, 2, 100.0);
      var first := Transferred(s, req, "test-key-123", firstId, NoFaults);
      var second := Transferred(first.after, req, "test-key-123", secondId, NoFaults);
      && first.result.Ok? && first.result.value.id == firstId
      && second == Outcome(first.result, first.after)
      && second.after.accounts == map[1 := 90000, 2 := 60000]
  {
    var s := Ledger(map[1 := 100000, 2 := 50000], []);
    var req := CreateTransactionRequest(1, 2, 100.0);
    assert FloatToCents(100.0) == 10000;
    var first := Transferred(s, req, "test-key-123", firstId, NoFaults);
    assert first.result == Ok(NewRecord(req, 10000, "test-key-123", firstId));
    TransferReplays(s, req, "test-key-123", firstId, NoFaults, req, secondId, NoFaults);
  }

  /** The transfer test end to end on a fresh store, through the services'
      methods: two accounts created, 250.50 moved, the balances read back. */
  method TransferThroughServices(id: string) returns (r: Result<Transaction>, source: Result<Account>, destination: Result<Account>)
    ensures r == Ok(Transaction(id, 1, 2, 25050, Completed, None))
    ensures source == Ok(Account(1, 74950)) && destination == Ok(Account(2, 75050))
  {
    var db := new Database();
    var err := AccountService.CreateAccount(db, CreateAccountRequest(1, 1000.0), None);
    assert FloatToCents(1000.0) == 100000;
    assert err == None;
    err := AccountService.CreateAccount(db, CreateAccountRequest(2, 500.0), None);
    assert FloatToCents(500.0) == 50000;
    assert db.State() == Ledger(map[1 := 100000, 2 := 50000], []);
    r := TransferService.Transfer(db, CreateTransactionRequest(1, 2, 250.50), "", id, NoFaults);
    TransferScenario(id);
    source := AccountService.GetAccountBalance(db.accounts, 1, None);
    destination := AccountService.GetAccountBalance(db.accounts, 2, None);
  }
}
