/** The in-memory store the repository tests use in place of the history
    table (repository/src/test/.../FakeConversionHistoryDao.kt): a list in
    insertion order with an observable copy that every mutation refreshes. */
module FakeConversionHistoryDao {
  import opened Wrappers
  import opened Text
  import opened Seqs
  import opened Entities
  import ConversionHistoryDao

  /** The list and the value last published to observers. */
  datatype Store = Store(conversions: seq<ConversionHistory>, conversionsFlow: seq<ConversionHistory>)

  /** Observers see exactly the current list. */
  predicate Synced(s: Store) {
    s.conversionsFlow == s.conversions
  }

  const Empty: Store := Store([], [])

  /** `getConversionHistory`: the published list, in insertion order (the
      table it stands for sorts newest first). */
  function GetConversionHistory(s: Store): (r: seq<ConversionHistory>)
    requires Synced(s)
    ensures r == s.conversions
  {
    s.conversionsFlow
  }

  /** The message of Kotlin's `take` for a negative count. */
  function NegativeCountError(n: int): string {
    "Requested element count " + IntToString(n) + " is less than zero."
  }

  /** `getRecentConversions`: the first `limit` rows of a stable sort by
      timestamp, newest first. `take` throws on a negative count. */
  function GetRecentConversions(s: Store, limit: int): (r: Result<seq<ConversionHistory>, string>)
    ensures limit < 0 ==> r == Failure(NegativeCountError(limit))
    ensures limit >= 0 ==> r.Success? && |r.value| == if limit < |s.conversions| then limit else |s.conversions|
    ensures r.Success? ==> SortedDesc(r.value, HistoryTimestamp)
    ensures r.Success? ==> multiset(r.value) <= multiset(s.conversions)
    ensures r.Success? ==> r.value == SortDesc(s.conversions, HistoryTimestamp)[..|r.value|]
  {
    if limit < 0 then Failure(NegativeCountError(limit))
    else
      var sorted := SortDesc(s.conversions, HistoryTimestamp);
      var r := Take(sorted, limit);
      assert r == sorted[..|r|];
      PrefixMultiset(sorted, |r|);
      Success(r)
  }

  /** Rows with equal timestamps come out of `getRecentConversions` in
      insertion order: for every timestamp, the returned rows stamped with it
      are the first ones inserted with it. */
  lemma RecentTiesInInsertionOrder(s: Store, limit: int, v: int)
    requires limit >= 0
    ensures var same := Filter(s.conversions, HasKey(HistoryTimestamp, v));
            var got := Filter(GetRecentConversions(s, limit).value, HasKey(HistoryTimestamp, v));
            got <= same
  {
    var q := HasKey(HistoryTimestamp, v);
    var sorted := SortDesc(s.conversions, HistoryTimestamp);
    var r := GetRecentConversions(s, limit).value;
    assert sorted == r + sorted[|r|..];
    FilterConcat(r, sorted[|r|..], q);
    SortDescStable(s.conversions, HistoryTimestamp, v);
  }

  /** `insertConversion`: appends and returns the new size. */
  function InsertConversion(s: Store, c: ConversionHistory): (r: (Store, int))
    ensures Synced(r.0)
    ensures r.0.conversions == s.conversions + [c]
    ensures r.1 == |r.0.conversions| == |s.conversions| + 1
  {
    var conversions := s.conversions + [c];
    (Store(conversions, conversions), |conversions|)
  }

  /** `deleteOldConversions`: removes exactly the rows older than the
      bound, keeps the others in order, and returns how many went. */
  function DeleteOldConversions(s: Store, timestamp: int): (r: (Store, int))
    ensures Synced(r.0)
    ensures r.0.conversions == Reject(s.conversions, ConversionHistoryDao.OlderThan(timestamp))
    ensures forall x :: x in r.0.conversions <==> x in s.conversions && x.timestamp >= timestamp
    ensures |s.conversions| == |r.0.conversions| + r.1
  {
    var oldConversions := Filter(s.conversions, ConversionHistoryDao.OlderThan(timestamp));
    var conversions := Reject(s.conversions, ConversionHistoryDao.OlderThan(timestamp));
    RejectMembers(s.conversions, ConversionHistoryDao.OlderThan(timestamp));
    FilterRejectPartition(s.conversions, ConversionHistoryDao.OlderThan(timestamp));
    (Store(conversions, conversions), |oldConversions|)
  }

  /** `deleteAllConversions`. */
  function DeleteAllConversions(s: Store): (r: Store)
    ensures Synced(r) && |r.conversions| == 0
  {
    Store([], [])
  }

  /** The fake's history keeps insertion order where the table sorts: of
      two conversions inserted oldest first, the fake lists the older first
      and the table lists it second. */
  lemma HistoryOrderDiffersFromTable(a: ConversionHistory, b: ConversionHistory)
    requires a.timestamp < b.timestamp
    ensures GetConversionHistory(InsertConversion(InsertConversion(Empty, a).0, b).0) == [a, b]
    ensures ConversionHistoryDao.GetConversionHistory(ConversionHistoryDao.Table([a, b], 0)) == [b, a]
  {
    var sorted := ConversionHistoryDao.GetConversionHistory(ConversionHistoryDao.Table([a, b], 0));
    assert multiset(sorted) == multiset{a, b};
    assert sorted[0] in multiset(sorted) && sorted[1] in multiset(sorted);
    assert HistoryTimestamp(sorted[0]) >= HistoryTimestamp(sorted[1]);
  }
}
