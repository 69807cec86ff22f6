/**
 * The transaction repository: the append-only transactions table as a
 * sequence of records, with a uniqueness constraint on non-NULL
 * idempotency keys.
 */
module TransactionRepo {
  import opened Wrappers
  import opened Errors
  import opened Models
  import opened Store

  /** The position of the first record whose key is `key`. */
  function FindByKey(ts: seq<Transaction>, key: string): (found: Option<nat>)
    ensures found.Some? ==>
      && found.value < |ts|
      && ts[found.value].idempotencyKey == Some(key)
      && (forall j :: 0 <= j < found.value ==> ts[j].idempotencyKey != Some(key))
    ensures found.None? ==> forall j :: 0 <= j < |ts| ==> ts[j].idempotencyKey != Some(key)
  {
    if ts == [] then None
    else if ts[0].idempotencyKey == Some(key) then Some(0)
    else
      match FindByKey(ts[1..], key)
      case None => None
      case Some(i) => Some(i + 1)
  }

  /** The table after `INSERT INTO transactions`: a key already present
      violates the unique constraint (code 23505) and becomes
      `ErrDuplicateIdempotency`; any other driver error is wrapped; NULL keys
      never collide. */
  function Appended(ts: seq<Transaction>, record: Transaction, failure: Option<DbFault>): (r: Result<seq<Transaction>>)
    ensures failure == Some(UniqueViolation) ==> r == Err(DuplicateIdempotency)
    ensures failure.Some? && failure.value.Failure? ==>
      r == Err(Wrapped("failed to create transaction", Driver(failure.value)))
    ensures failure.None? ==>
      (r == Err(DuplicateIdempotency) <==>
        exists t :: t in ts && record.idempotencyKey.Some? && t.idempotencyKey == record.idempotencyKey)
    ensures failure.None? && (record.idempotencyKey.None? || FindByKey(ts, record.idempotencyKey.value).None?) ==>
      r.Ok?
    ensures r.Ok? ==> |r.value| == |ts| + 1 && r.value[..|ts|] == ts && r.value[|ts|] == record
  {
    var outcome := if failure.Some? then failure
                   else if record.idempotencyKey.Some? && FindByKey(ts, record.idempotencyKey.value).Some?
                   then Some(UniqueViolation)
                   else None;
    match outcome
    case Some(UniqueViolation) => Err(DuplicateIdempotency)
    case Some(fault) => Err(Wrapped("failed to create transaction", Driver(fault)))
    case None => Ok(ts + [record])
  }

  /** `Create`: appends the record, or reports why it could not. */
  method Create(db: Database, record: Transaction, failure: Option<DbFault>) returns (err: Option<Error>)
    modifies db
    ensures var r := Appended(old(db.transactions), record, failure);
      && (r.Ok? ==> err == None && db.transactions == r.value)
      && (r.Err? ==> err == Some(r.error) && db.transactions == old(db.transactions))
    ensures db.accounts == old(db.accounts)
  {
    var r := Appended(db.transactions, record, failure);
    if r.Err? {
      return Some(r.error);
    }
    db.transactions := r.value;
    return None;
  }

  /** `GetByIdempotencyKey`: the stored record with that key, returned as
      stored (so its key is set), or `ErrTransactionNotFound`. */
  function GetByIdempotencyKey(ts: seq<Transaction>, key: string, failure: Option<DbFault>): (r: Result<Transaction>)
    ensures failure.Some? ==> r == Err(Wrapped("failed to get transaction", Driver(failure.value)))
    ensures r.Ok? ==> r.value in ts && r.value.idempotencyKey == Some(key)
    ensures failure.None? ==>
      (r == Err(TransactionNotFound) <==> forall t :: t in ts ==> t.idempotencyKey != Some(key))
    ensures failure.None? ==> r.Ok? || r == Err(TransactionNotFound)
  {
    if failure.Some? then Err(Wrapped("failed to get transaction", Driver(failure.value)))
    else
      match FindByKey(ts, key)
      case None => Err(TransactionNotFound)
      case Some(i) => Ok(ts[i])
  }

  /** With unique keys the lookup returns THE record carrying the key. */
  lemma LookupIsUnique(ts: seq<Transaction>, key: string, i: nat)
    requires KeysUnique(ts)
    requires i < |ts| && ts[i].idempotencyKey == Some(key)
    ensures GetByIdempotencyKey(ts, key, None) == Ok(ts[i])
  {
    var found := FindByKey(ts, key);
    assert found.Some? && found.value <= i;
  }

  /** Round trip: after a successful insert with key `key`, the lookup by
      that key returns the inserted record. */
  lemma AppendedThenFound(ts: seq<Transaction>, record: Transaction, key: string)
    requires record.idempotencyKey == Some(key)
    requires Appended(ts, record, None).Ok?
    ensures GetByIdempotencyKey(Appended(ts, record, None).value, key, None) == Ok(record)
  {
    var ts' := Appended(ts, record, None).value;
    var found := FindByKey(ts', key);
    assert ts'[|ts|].idempotencyKey == Some(key);
    assert forall j :: 0 <= j < |ts| ==> ts'[j] == ts[j] && ts[j] in ts;
  }

  /** An insert keeps the keys unique. */
  lemma AppendedKeepsKeysUnique(ts: seq<Transaction>, record: Transaction, failure: Option<DbFault>)
    requires KeysUnique(ts)
    requires Appended(ts, record, failure).Ok?
    ensures KeysUnique(Appended(ts, record, failure).value)
  {
    var ts' := Appended(ts, record, failure).value;
    forall i, j | 0 <= i < j < |ts'| && ts'[i].idempotencyKey.Some?
      ensures ts'[i].idempotencyKey != ts'[j].idempotencyKey
    {
      if j == |ts| {
        assert ts[i] in ts;
      }
    }
  }
}
