/**
 * The database: the accounts table (account id to balance in cents) and the
 * transactions table (records in insertion order). `Ledger` is its value;
 * `Database` is the mutable store the repositories write to.
 */
module Store {
  import opened Wrappers
  import opened Models

  datatype Ledger = Ledger(accounts: map<int, int>, transactions: seq<Transaction>)

  /** Some key of a non-empty map. */
  ghost function PickKey(m: map<int, int>): (k: int)
    requires exists k :: k in m
    ensures k in m
  {
    var k :| k in m; k
  }

  /** The sum of all balances. */
  ghost function Total(m: map<int, int>): int
    decreases |m|
  {
    if exists k :: k in m then
      var k := PickKey(m);
      m[k] + Total(m - {k})
    else 0
  }

  /** Any key may be taken out first, whichever key `Total` happens to pick. */
  lemma {:induction false} TotalRemove(m: map<int, int>, k: int)
    requires k in m
    ensures Total(m) == m[k] + Total(m - {k})
    decreases |m|
  {
    var j := PickKey(m);
    if j != k {
      TotalRemove(m - {j}, k);
      TotalRemove(m - {k}, j);
      assert m - {j} - {k} == m - {k} - {j};
    }
  }

  /** Overwriting one existing balance changes the total by the difference. */
  lemma TotalUpdate(m: map<int, int>, k: int, v: int)
    requires k in m
    ensures Total(m[k := v]) == Total(m) - m[k] + v
  {
    TotalRemove(m[k := v], k);
    TotalRemove(m, k);
    assert m[k := v] - {k} == m - {k};
  }

  /** Moving `amount` from one existing account to another keeps the total. */
  lemma TotalMove(m: map<int, int>, source: int, destination: int, amount: int)
    requires source in m && destination in m && source != destination
    ensures Total(m[source := m[source] - amount][destination := m[destination] + amount]) == Total(m)
  {
    var m1 := m[source := m[source] - amount];
    TotalUpdate(m, source, m[source] - amount);
    TotalUpdate(m1, destination, m[destination] + amount);
  }

  /** No committed balance is negative. */
  ghost predicate NonNegative(accounts: map<int, int>)
  {
    forall id :: id in accounts ==> accounts[id] >= 0
  }

  /** No two records share a (non-NULL) idempotency key. */
  ghost predicate KeysUnique(ts: seq<Transaction>)
  {
    forall i, j :: 0 <= i < j < |ts| && ts[i].idempotencyKey.Some? ==>
      ts[i].idempotencyKey != ts[j].idempotencyKey
  }

  /** No two records share an id. */
  ghost predicate IdsUnique(ts: seq<Transaction>)
  {
    forall i, j :: 0 <= i < j < |ts| ==> ts[i].id != ts[j].id
  }

  /** Every record is a completed movement of a positive amount between two
      distinct valid accounts. */
  ghost predicate RecordsCompleted(ts: seq<Transaction>)
  {
    forall t :: t in ts ==>
      t.status == Completed && t.amount > 0
      && t.sourceAccountId > 0 && t.destinationAccountId > 0
      && t.sourceAccountId != t.destinationAccountId
  }

  /** What the transfer path keeps true of every committed state. */
  ghost predicate Consistent(l: Ledger)
  {
    NonNegative(l.accounts) && KeysUnique(l.transactions)
    && IdsUnique(l.transactions) && RecordsCompleted(l.transactions)
  }

  class Database {
    var accounts: map<int, int>
    var transactions: seq<Transaction>

    constructor ()
      ensures accounts == map[] && transactions == []
    {
      accounts := map[];
      transactions := [];
    }

    function State(): Ledger
      reads this
    {
      Ledger(accounts, transactions)
    }

    /** Rolling a unit of work back: the store returns to its snapshot. */
    method Restore(snapshot: Ledger)
      modifies this
      ensures State() == snapshot
    {
      accounts := snapshot.accounts;
      transactions := snapshot.transactions;
    }
  }
}
