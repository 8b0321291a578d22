/**
 * DashboardController::batchDelete: looks up each submitted id, marks the
 * users it finds for removal, skips ids that resolve to nothing, and
 * commits every removal with one flush after the loop. An empty (or
 * absent) id list does nothing, not even the flush.
 */
module Dashboard {
  import opened Entity
  import opened Orm

  /** The ids named in the request. */
  function Listed(ids: seq<int>): set<int> {
    set k | k in ids
  }

  /** The database after the batch: every listed row gone, every other row kept. */
  function AfterBatchDelete(rows: map<int, UserData>, ids: seq<int>): map<int, UserData> {
    rows - Listed(ids)
  }

  /** Listing one more id adds exactly that id. */
  lemma ListedSnoc(ids: seq<int>, id: int)
    ensures Listed(ids + [id]) == Listed(ids) + {id}
  {
  }

  /** Listed ids are gone; ids that resolved to nothing were simply skipped. */
  lemma BatchDeleteRemovesListed(rows: map<int, UserData>, ids: seq<int>)
    ensures forall i :: 0 <= i < |ids| ==> ids[i] !in AfterBatchDelete(rows, ids)
  {
  }

  /** Rows whose id is not listed are unchanged. */
  lemma BatchDeleteKeepsUnlisted(rows: map<int, UserData>, ids: seq<int>)
    ensures forall k :: k in rows && k !in ids ==> k in AfterBatchDelete(rows, ids) && AfterBatchDelete(rows, ids)[k] == rows[k]
    ensures AfterBatchDelete(rows, ids).Keys <= rows.Keys
  {
  }

  /** The store shrinks by exactly the number of distinct listed ids that were stored. */
  lemma BatchDeleteCount(rows: map<int, UserData>, ids: seq<int>)
    ensures |AfterBatchDelete(rows, ids)| == |rows| - |Listed(ids) * rows.Keys|
  {
  }

  /** Listing an id that resolves to no user changes nothing. */
  lemma BatchDeleteSkipsMissing(rows: map<int, UserData>, ids: seq<int>, missing: int)
    requires missing !in rows
    ensures AfterBatchDelete(rows, ids + [missing]) == AfterBatchDelete(rows, ids)
  {
  }

  /** Deleting [a, b, c] where b does not exist removes a and c and nothing else. */
  lemma BatchDeleteOfThree(rows: map<int, UserData>, a: int, b: int, c: int)
    requires a in rows && c in rows && b !in rows && a != c
    ensures AfterBatchDelete(rows, [a, b, c]) == rows - {a, c}
    ensures |AfterBatchDelete(rows, [a, b, c])| == |rows| - 2
  {
  }

  method BatchDelete(entityManager: Store, ids: seq<int>)
    requires entityManager.Idle()
    modifies entityManager
    ensures entityManager.Idle()
    ensures entityManager.rows == AfterBatchDelete(old(entityManager.rows), ids)
    ensures entityManager.nextId == old(entityManager.nextId)
    ensures entityManager.flushes == old(entityManager.flushes) + (if ids == [] then 0 else 1)
  {
    if ids != [] {
      for i := 0 to |ids|
        invariant entityManager.Valid()
        invariant entityManager.rows == old(entityManager.rows) && entityManager.nextId == old(entityManager.nextId)
        invariant entityManager.flushes == old(entityManager.flushes)
        invariant entityManager.scheduled == Listed(ids[..i]) * entityManager.rows.Keys
      {
        var user := entityManager.Find(ids[i]);
        if user != null {
          entityManager.Remove(user);
        }
        ListedSnoc(ids[..i], ids[i]);
        assert ids[..i + 1] == ids[..i] + [ids[i]];
      }
      assert ids[..|ids|] == ids;
      entityManager.Flush();
    }
  }
}
