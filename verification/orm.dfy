/**
 * The entity manager and the database behind it. `rows` is what the
 * database holds; `scheduled` are the ids remove() has marked and the next
 * flush deletes; `nextId` is the id the next inserted row gets. `flushes`
 * counts commits, so that callers can state how many they make.
 */
module Orm {
  import opened Optional
  import opened Entity

  /** Every stored row sits under its own id, and ids are handed out from 1 upwards. */
  predicate WellKeyed(rows: map<int, UserData>, nextId: int) {
    1 <= nextId &&
    forall k :: k in rows ==> 1 <= k < nextId && rows[k].id == Some(k)
  }

  class Store {
    var rows: map<int, UserData>
    var scheduled: set<int>
    var nextId: int
    ghost var flushes: nat

    ghost predicate Valid()
      reads this
    {
      WellKeyed(rows, nextId)
    }

    /** Between requests: nothing is waiting for a flush. */
    ghost predicate Idle()
      reads this
    {
      Valid() && scheduled == {}
    }

    constructor ()
      ensures Idle() && rows == map[] && flushes == 0
    {
      rows, scheduled, nextId := map[], {}, 1;
      flushes := 0;
    }

    /** find($id): the entity stored under `id`, or null. */
    method Find(id: int) returns (u: User?)
      ensures u != null <==> id in rows
      ensures u != null ==> fresh(u) && u.Data() == rows[id] && u.plainPassword == None
    {
      if id in rows {
        u := new User.Load(rows[id]);
      } else {
        u := null;
      }
    }

    /** remove($user): marks a stored entity for deletion at the next flush; a never-stored one is ignored. */
    method Remove(u: User)
      requires u.id.Some? ==> u.id.value in rows
      modifies this`scheduled
      ensures scheduled == old(scheduled) + (if u.id.Some? then {u.id.value} else {})
    {
      if u.id.Some? {
        scheduled := scheduled + {u.id.value};
      }
    }

    /** flush(): commits the scheduled deletions. */
    method Flush()
      requires Valid()
      modifies this`rows, this`scheduled, this`flushes
      ensures Valid()
      ensures rows == old(rows) - old(scheduled) && scheduled == {}
      ensures flushes == old(flushes) + 1
    {
      rows := rows - scheduled;
      scheduled := {};
      flushes := flushes + 1;
    }

    /**
     * persist($user) followed by flush(): a new entity gets the next id and
     * is inserted, a stored one has its row overwritten; scheduled
     * deletions are committed in the same flush.
     */
    method Save(u: User)
      requires Valid()
      requires u.id.Some? ==> u.id.value in rows
      modifies this, u`id
      ensures Valid() && scheduled == {}
      ensures u.id == if old(u.id).Some? then old(u.id) else Some(old(nextId))
      ensures nextId == if old(u.id).Some? then old(nextId) else old(nextId) + 1
      ensures rows == (old(rows) - old(scheduled))[u.id.value := u.Data()]
      ensures flushes == old(flushes) + 1
    {
      if u.id.None? {
        u.id := Some(nextId);
        nextId := nextId + 1;
      }
      rows := (rows - scheduled)[u.id.value := u.Data()];
      scheduled := {};
      flushes := flushes + 1;
    }
  }
}
