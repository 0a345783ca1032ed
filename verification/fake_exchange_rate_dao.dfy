/** The in-memory store the repository tests use in place of the rate
    table (repository/src/test/.../FakeExchangeRateDao.kt): a list in
    insertion order with an observable copy that every mutation refreshes.
    Unlike the table it replaces, it has no primary key. */
module FakeExchangeRateDao {
  import opened Wrappers
  import opened Seqs
  import opened Entities
  import ExchangeRateDao

  /** The list and the value last published to observers. */
  datatype Store = Store(rates: seq<ExchangeRateEntity>, ratesFlow: seq<ExchangeRateEntity>)

  /** Observers see exactly the current list. */
  predicate Synced(s: Store) {
    s.ratesFlow == s.rates
  }

  const Empty: Store := Store([], [])

  /** `getExchangeRates`: the published list, in insertion order. */
  function GetExchangeRates(s: Store): (r: seq<ExchangeRateEntity>)
    requires Synced(s)
    ensures r == s.rates
  {
    s.ratesFlow
  }

  /** `getLatestExchangeRate`: the row with that base inserted last,
      whatever the timestamps say; `None` when there is none. */
  function GetLatestExchangeRate(s: Store, base: string): (r: Option<ExchangeRateEntity>)
    ensures r.None? <==> forall k :: 0 <= k < |s.rates| ==> s.rates[k].base != base
    ensures r.Some? ==> exists k :: LatestAt(s.rates, base, k) && r.value == s.rates[k]
  {
    match LastIndex(s.rates, ExchangeRateDao.WithBase(base))
    case None => None
    case Some(k) =>
      assert LatestAt(s.rates, base, k);
      Some(s.rates[k])
  }

  /** Row `k` has the base and no later row has it. */
  predicate LatestAt(rows: seq<ExchangeRateEntity>, base: string, k: int) {
    0 <= k < |rows| && rows[k].base == base && forall j :: k < j < |rows| ==> rows[j].base != base
  }

  /** `getExchangeRatesByDateRange`: the rows with that base and a
      timestamp in the closed range, in insertion order. */
  function GetExchangeRatesByDateRange(s: Store, base: string, startTime: int, endTime: int): (r: seq<ExchangeRateEntity>)
    ensures forall x :: x in r <==> x in s.rates && x.base == base && startTime <= x.timestamp <= endTime
    ensures r == Filter(s.rates, ExchangeRateDao.InRange(base, startTime, endTime))
  {
    FilterMembers(s.rates, ExchangeRateDao.InRange(base, startTime, endTime));
    Filter(s.rates, ExchangeRateDao.InRange(base, startTime, endTime))
  }

  /** `insertExchangeRate`: appends, never replaces, and returns the new
      size. */
  function InsertExchangeRate(s: Store, e: ExchangeRateEntity): (r: (Store, int))
    ensures Synced(r.0)
    ensures r.0.rates == s.rates + [e]
    ensures r.1 == |r.0.rates| == |s.rates| + 1
  {
    var rates := s.rates + [e];
    (Store(rates, rates), |rates|)
  }

  /** `deleteOldRates`: removes exactly the rows older than the bound,
      keeps the others in order, and returns how many went. */
  function DeleteOldRates(s: Store, timestamp: int): (r: (Store, int))
    ensures Synced(r.0)
    ensures r.0.rates == Reject(s.rates, ExchangeRateDao.OlderThan(timestamp))
    ensures forall x :: x in r.0.rates <==> x in s.rates && x.timestamp >= timestamp
    ensures |s.rates| == |r.0.rates| + r.1
    ensures r.1 == |Filter(s.rates, ExchangeRateDao.OlderThan(timestamp))|
  {
    var oldRates := Filter(s.rates, ExchangeRateDao.OlderThan(timestamp));
    var rates := Reject(s.rates, ExchangeRateDao.OlderThan(timestamp));
    RejectMembers(s.rates, ExchangeRateDao.OlderThan(timestamp));
    FilterRejectPartition(s.rates, ExchangeRateDao.OlderThan(timestamp));
    (Store(rates, rates), |oldRates|)
  }

  /** `deleteAllRates`. */
  function DeleteAllRates(s: Store): (r: Store)
    ensures Synced(r) && |r.rates| == 0
  {
    Store([], [])
  }

  /** The latest row of a base is the one inserted last, even when an
      earlier row of that base carries a newer timestamp. */
  lemma LatestIsLastInserted(s: Store, e: ExchangeRateEntity)
    ensures GetLatestExchangeRate(InsertExchangeRate(s, e).0, e.base) == Some(e)
  {
    var rows := InsertExchangeRate(s, e).0.rates;
    var r := GetLatestExchangeRate(InsertExchangeRate(s, e).0, e.base);
    assert rows[|rows| - 1] == e;
    var k :| LatestAt(rows, e.base, k) && r.value == rows[k];
  }

  /** Two rows with one base are both kept, where the table would keep only
      the second. */
  lemma DuplicatesKept(e1: ExchangeRateEntity, e2: ExchangeRateEntity)
    requires e1.base == e2.base && e1 != e2
    ensures |InsertExchangeRate(InsertExchangeRate(Empty, e1).0, e2).0.rates| == 2
    ensures |ExchangeRateDao.InsertExchangeRate(ExchangeRateDao.InsertExchangeRate([], e1), e2)| == 1
  {
    var t := ExchangeRateDao.InsertExchangeRate([], e1);
    assert t == [e1];
    assert Reject(t, ExchangeRateDao.WithBase(e2.base)) == [];
  }
}
