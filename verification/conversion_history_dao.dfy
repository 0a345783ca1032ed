/** The Room store of conversions (database/ConversionHistoryDao.kt): the
    `conversion_history` table, whose primary key `id` is
    `INTEGER PRIMARY KEY AUTOINCREMENT`. SQLite remembers the largest id it
    ever handed out, so ids of deleted rows are never reused. */
module ConversionHistoryDao {
  import opened Seqs
  import opened Entities

  /** The rows in storage order and the largest id ever used. */
  datatype Table = Table(rows: seq<ConversionHistory>, lastId: int)

  /** Ids are positive, distinct, and none exceeds the remembered largest,
      which starts at 0. */
  predicate Valid(t: Table) {
    && t.lastId >= 0
    && (forall i :: 0 <= i < |t.rows| ==> 0 < t.rows[i].id <= t.lastId)
    && DistinctIds(t.rows)
  }

  predicate DistinctIds(rows: seq<ConversionHistory>) {
    forall i, j :: 0 <= i < j < |rows| ==> rows[i].id != rows[j].id
  }

  const Empty: Table := Table([], 0)

  function WithId(id: int): ConversionHistory -> bool {
    (h: ConversionHistory) => h.id == id
  }

  function OlderThan(timestamp: int): ConversionHistory -> bool {
    (h: ConversionHistory) => h.timestamp < timestamp
  }

  /** `SELECT * ... ORDER BY timestamp DESC`: every row, newest first. */
  function GetConversionHistory(t: Table): (r: seq<ConversionHistory>)
    ensures SortedDesc(r, HistoryTimestamp)
    ensures multiset(r) == multiset(t.rows)
  {
    SortDesc(t.rows, HistoryTimestamp)
  }

  /** `... ORDER BY timestamp DESC LIMIT :limit`: the newest `limit` rows;
      SQLite reads a negative limit as no limit. */
  function GetRecentConversions(t: Table, limit: int): (r: seq<ConversionHistory>)
    ensures limit < 0 ==> r == GetConversionHistory(t)
    ensures limit >= 0 ==> |r| == if limit < |t.rows| then limit else |t.rows|
    ensures r == GetConversionHistory(t)[..|r|]
    ensures SortedDesc(r, HistoryTimestamp)
  {
    var all := GetConversionHistory(t);
    if limit < 0 then all else Take(all, limit)
  }

  /** `@Insert(onConflict = REPLACE)`. A row with id 0 has no id yet and
      gets the next one after the largest ever used; a row with an id
      replaces the row holding that id. Returns the row's id. */
  function InsertConversion(t: Table, c: ConversionHistory): (r: (Table, int))
    requires Valid(t)
    requires c.id >= 0
    ensures Valid(r.0)
    ensures c.id != 0 ==> r.1 == c.id
    ensures c.id == 0 ==> r.1 == t.lastId + 1 && forall x :: x in t.rows ==> x.id < r.1
    ensures c.(id := r.1) in r.0.rows
    ensures forall x :: x in r.0.rows <==> x == c.(id := r.1) || (x in t.rows && x.id != r.1)
  {
    var id := if c.id == 0 then t.lastId + 1 else c.id;
    var kept := Reject(t.rows, WithId(id));
    RejectMembers(t.rows, WithId(id));
    SubsequenceValid(t.rows, t.lastId, WithId(id));
    var lastId := if id > t.lastId then id else t.lastId;
    var rows := kept + [c.(id := id)];
    forall i | 0 <= i < |rows|
      ensures 0 < rows[i].id <= lastId
    {
      if i < |kept| {
        assert rows[i] == kept[i];
      }
    }
    (Table(rows, lastId), id)
  }

  /** The rows of a valid table with some of them deleted still satisfy the
      key and the id bound. */
  lemma SubsequenceValid(rows: seq<ConversionHistory>, lastId: int, p: ConversionHistory -> bool)
    requires Valid(Table(rows, lastId))
    ensures Valid(Table(Reject(rows, p), lastId))
  {
    var r := Reject(rows, p);
    RejectMembers(rows, p);
    forall i | 0 <= i < |r|
      ensures 0 < r[i].id <= lastId
    {
      assert r[i] in rows;
    }
    RejectDistinct(rows, p);
  }

  /** Deleting rows keeps the remaining ids distinct. */
  lemma {:induction false} RejectDistinct(rows: seq<ConversionHistory>, p: ConversionHistory -> bool)
    requires DistinctIds(rows)
    ensures DistinctIds(Reject(rows, p))
    decreases |rows|
  {
    if |rows| > 0 {
      var tail := rows[1..];
      assert DistinctIds(tail) by {
        forall i, j | 0 <= i < j < |tail|
          ensures tail[i].id != tail[j].id
        {
          assert tail[i] == rows[i + 1] && tail[j] == rows[j + 1];
        }
      }
      RejectDistinct(tail, p);
      var rest := Reject(tail, p);
      if !p(rows[0]) {
        RejectMembers(tail, p);
        var r := [rows[0]] + rest;
        assert Reject(rows, p) == r;
        forall i, j | 0 <= i < j < |r|
          ensures r[i].id != r[j].id
        {
          if i == 0 {
            assert r[j] in tail;
            var k :| 0 <= k < |tail| && tail[k] == r[j];
            assert rows[k + 1] == r[j];
          } else {
            assert r[i] == rest[i - 1] && r[j] == rest[j - 1];
          }
        }
      } else {
        assert Reject(rows, p) == rest;
      }
    }
  }

  /** `DELETE ... WHERE timestamp < :timestamp`: exactly the older rows go
      and their number is returned; the id sequence is untouched. */
  function DeleteOldConversions(t: Table, timestamp: int): (r: (Table, int))
    requires Valid(t)
    ensures Valid(r.0) && r.0.lastId == t.lastId
    ensures forall x :: x in r.0.rows <==> x in t.rows && x.timestamp >= timestamp
    ensures r.1 == |Filter(t.rows, OlderThan(timestamp))| && |t.rows| == |r.0.rows| + r.1
  {
    var kept := Reject(t.rows, OlderThan(timestamp));
    RejectMembers(t.rows, OlderThan(timestamp));
    FilterRejectPartition(t.rows, OlderThan(timestamp));
    SubsequenceValid(t.rows, t.lastId, OlderThan(timestamp));
    (Table(kept, t.lastId), |t.rows| - |kept|)
  }

  /** `DELETE FROM conversion_history`: no rows, but the id sequence is
      kept. */
  function DeleteAllConversions(t: Table): (r: Table)
    requires Valid(t)
    ensures Valid(r) && |r.rows| == 0 && r.lastId == t.lastId
  {
    Table([], t.lastId)
  }

  /** Ids are never reused: a new row inserted after everything was deleted
      gets an id larger than any the table ever held. */
  lemma IdsNotReusedAfterClear(t: Table, c: ConversionHistory)
    requires Valid(t) && c.id == 0
    ensures forall x :: x in t.rows ==> x.id < InsertConversion(DeleteAllConversions(t), c).1
  {
    forall x | x in t.rows
      ensures x.id < InsertConversion(DeleteAllConversions(t), c).1
    {
      var k :| 0 <= k < |t.rows| && t.rows[k] == x;
    }
  }
}
