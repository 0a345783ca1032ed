/** The Room store of cached rates (database/ExchangeRateDao.kt): the
    `exchange_rates` table, keyed by `base`. The table is the sequence of
    its rows in storage order. SQL leaves the order of rows with equal
    timestamps open, so the queries are specified by their ordering and
    contents; the definitions pick the stable order. */
module ExchangeRateDao {
  import opened Wrappers
  import opened Seqs
  import opened Entities

  type Table = seq<ExchangeRateEntity>

  /** The primary key: no two rows share a base. */
  predicate UniqueBases(t: Table) {
    forall i, j :: 0 <= i < j < |t| ==> t[i].base != t[j].base
  }

  function WithBase(base: string): ExchangeRateEntity -> bool {
    (e: ExchangeRateEntity) => e.base == base
  }

  function InRange(base: string, startTime: int, endTime: int): ExchangeRateEntity -> bool {
    (e: ExchangeRateEntity) => e.base == base && startTime <= e.timestamp <= endTime
  }

  function OlderThan(timestamp: int): ExchangeRateEntity -> bool {
    (e: ExchangeRateEntity) => e.timestamp < timestamp
  }

  /** `SELECT * ... ORDER BY timestamp DESC`: every row, newest first. */
  function GetExchangeRates(t: Table): (r: seq<ExchangeRateEntity>)
    ensures SortedDesc(r, RateTimestamp)
    ensures multiset(r) == multiset(t)
  {
    SortDesc(t, RateTimestamp)
  }

  /** `... WHERE base = :base AND timestamp BETWEEN :startTime AND :endTime
      ORDER BY timestamp DESC`: both ends are inclusive. */
  function GetExchangeRatesByDateRange(t: Table, base: string, startTime: int, endTime: int): (r: seq<ExchangeRateEntity>)
    ensures SortedDesc(r, RateTimestamp)
    ensures multiset(r) == multiset(Filter(t, InRange(base, startTime, endTime)))
  {
    SortDesc(Filter(t, InRange(base, startTime, endTime)), RateTimestamp)
  }

  /** `... WHERE base = :base ORDER BY timestamp DESC LIMIT 1`. */
  function GetLatestExchangeRate(t: Table, base: string): (r: Option<ExchangeRateEntity>)
    ensures r.None? <==> forall e :: e in t ==> e.base != base
    ensures r.Some? ==> r.value in t && r.value.base == base
    ensures r.Some? ==> forall e :: e in t && e.base == base ==> e.timestamp <= r.value.timestamp
  {
    var rows := SortDesc(Filter(t, WithBase(base)), RateTimestamp);
    FilterMembers(t, WithBase(base));
    SameMembers(rows, Filter(t, WithBase(base)));
    if |rows| == 0 then None
    else
      assert rows[0] in rows;
      SortedHeadIsMax(rows, RateTimestamp);
      Some(rows[0])
  }

  /** `@Insert(onConflict = REPLACE)`: the row holding the same base, if
      any, is deleted and the new row is added. */
  function InsertExchangeRate(t: Table, e: ExchangeRateEntity): (r: Table)
    requires UniqueBases(t)
    ensures UniqueBases(r)
    ensures e in r
    ensures forall x :: x in r <==> x == e || (x in t && x.base != e.base)
    ensures |r| == |Reject(t, WithBase(e.base))| + 1
  {
    var kept := Reject(t, WithBase(e.base));
    RejectMembers(t, WithBase(e.base));
    SubsequenceUnique(t, WithBase(e.base));
    kept + [e]
  }

  /** Deleting rows keeps the rest unique. */
  lemma {:induction false} SubsequenceUnique(t: Table, p: ExchangeRateEntity -> bool)
    requires UniqueBases(t)
    ensures UniqueBases(Reject(t, p))
    decreases |t|
  {
    if |t| > 0 {
      SubsequenceUnique(t[1..], p);
      RejectMembers(t[1..], p);
      var rest := Reject(t[1..], p);
      if !p(t[0]) {
        var r := [t[0]] + rest;
        forall i, j | 0 <= i < j < |r|
          ensures r[i].base != r[j].base
        {
          if i == 0 {
            assert r[j] in t[1..];
            var k :| 0 <= k < |t[1..]| && t[1..][k] == r[j];
            assert t[k + 1] == r[j];
          } else {
            assert r[i] == rest[i - 1] && r[j] == rest[j - 1];
          }
        }
      }
    }
  }

  /** After an insert, the newest row of its base is the inserted one:
      the key leaves no older row behind. */
  lemma LatestAfterInsert(t: Table, e: ExchangeRateEntity)
    requires UniqueBases(t)
    ensures GetLatestExchangeRate(InsertExchangeRate(t, e), e.base) == Some(e)
  {
    var r := InsertExchangeRate(t, e);
    var latest := GetLatestExchangeRate(r, e.base);
    assert latest.value in r && latest.value.base == e.base;
  }

  /** `DELETE ... WHERE timestamp < :timestamp`: exactly the older rows go,
      rows stamped at the bound itself stay, and the count of deleted rows
      is returned. */
  function DeleteOldRates(t: Table, timestamp: int): (r: (Table, int))
    ensures r.0 == Reject(t, OlderThan(timestamp))
    ensures forall x :: x in r.0 <==> x in t && x.timestamp >= timestamp
    ensures r.1 == |Filter(t, OlderThan(timestamp))| && |t| == |r.0| + r.1
  {
    var kept := Reject(t, OlderThan(timestamp));
    RejectMembers(t, OlderThan(timestamp));
    FilterRejectPartition(t, OlderThan(timestamp));
    (kept, |t| - |kept|)
  }

  /** Deleting old rows keeps the primary key. */
  lemma DeleteOldRatesKeepsKey(t: Table, timestamp: int)
    requires UniqueBases(t)
    ensures UniqueBases(DeleteOldRates(t, timestamp).0)
  {
    SubsequenceUnique(t, OlderThan(timestamp));
  }

  /** `DELETE FROM exchange_rates`. */
  function DeleteAllRates(t: Table): (r: Table)
    ensures |r| == 0
  {
    []
  }
}
