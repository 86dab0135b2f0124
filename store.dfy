/**
  The service's `queries` table as one object: the rows in ascending id order
  and the next id the table hands out. Each method is one handler's SQL
  statement, carried out one row at a time.
 */
module Store {
  import opened Queries

  class JobStore {
    var rows: seq<Query>
    /** Greater than every id ever handed out. */
    var nextId: int

    ghost predicate Valid()
      reads this
    {
      && IdsAscending(rows)
      && (forall i :: 0 <= i < |rows| ==> rows[i].id < nextId)
      && (forall i :: 0 <= i < |rows| ==> LeaseConsistent(rows[i]))
    }

    /** An empty table; ids start at 1. */
    constructor ()
      ensures Valid() && rows == [] && nextId == 1
    {
      rows := [];
      nextId := 1;
    }

    /**
      `InsertQuery`: add a row with a fresh id, queued and not leased.
     */
    method Insert(itemId: string, realm: string, league: string, searchQuery: string,
                  updateInterval: int, nextRun: int, runOnce: bool)
      requires Valid()
      modifies this
      ensures Valid()
      ensures rows == old(rows) + [Query(old(nextId), itemId, realm, league, searchQuery,
                                         updateInterval, nextRun, Queued, 0, runOnce)]
      ensures nextId == old(nextId) + 1
    {
      rows := rows + [Query(nextId, itemId, realm, league, searchQuery, updateInterval, nextRun, Queued, 0, runOnce)];
      nextId := nextId + 1;
    }

    /**
      `GetInfoQueries` (`runOnce`) and `GetPriceQueries` (`!runOnce`): lease
      the first `BatchSize` eligible rows of the pool and return them as
      updated, in id order.
     */
    method Claim(runOnce: bool, now: int) returns (claimed: seq<Query>)
      requires Valid()
      modifies this
      ensures Valid() && nextId == old(nextId)
      ensures rows == ClaimTable(old(rows), runOnce, now)
      ensures claimed == ClaimResult(old(rows), runOnce, now)
    {
      var picked := SelectForClaim(rows, runOnce, now, BatchSize);
      var updated;
      updated, claimed := LeaseSelected(rows, set q | q in picked :: q.id, now);
      ClaimUpdatesOnlyClaimed(rows, runOnce, now);
      rows := updated;
    }

    /**
      `UpdateNextRun`: on the row with this id and league, release the lease
      and set the next run `updateHours` hours after `now`. A row with the id
      but another league is left alone.
     */
    method Reschedule(id: int, league: string, updateHours: int, now: int)
      requires Valid()
      modifies this
      ensures Valid() && nextId == old(nextId)
      ensures rows == RescheduleTable(old(rows), id, league, NextRunAfter(now, updateHours))
    {
      var table, nextRun := rows, NextRunAfter(now, updateHours);
      var updated: seq<Query> := [];
      for j := 0 to |table|
        modifies {}
        invariant |updated| == j
        invariant forall k :: 0 <= k < j ==> updated[k] == if Targets(table[k], id, league) then Release(table[k], nextRun) else table[k]
      {
        if Targets(table[j], id, league) {
          updated := updated + [Release(table[j], nextRun)];
        } else {
          updated := updated + [table[j]];
        }
      }
      assert updated == RescheduleTable(table, id, league, nextRun);
      RescheduleKeepsTable(table, id, league, nextRun);
      rows := updated;
    }

    /** `DeleteQuery`: remove the row with this id, if there is one. */
    method Delete(id: int)
      requires Valid()
      modifies this
      ensures Valid() && nextId == old(nextId)
      ensures rows == Without(old(rows), id)
    {
      var table := rows;
      var kept: seq<Query> := [];
      for j := 0 to |table|
        modifies {}
        invariant Without(table, id) == kept + Without(table[j..], id)
      {
        WithoutFrom(table, id, kept, j);
        if table[j].id != id {
          kept := kept + [table[j]];
        }
      }
      assert table[|table|..] == [];
      assert kept == Without(table, id);
      WithoutAscending(table, id);
      WithoutKeepsRows(table, id, nextId);
      rows := kept;
    }

    /** `HasPriceQuery`: is there a recurring query for the item in the league? */
    function HasPriceQuery(itemId: string, league: string): (b: bool)
      reads this
      ensures b <==> exists q :: q in rows && q.itemId == itemId && q.league == league && !q.runOnce
    {
      AnyRow(rows, q => PriceQueryFor(q, itemId, league))
    }

    /** The first check of `HasInfo`: is there a one-shot query for the item? */
    function HasInfoQuery(itemId: string): (b: bool)
      reads this
      ensures b <==> exists q :: q in rows && q.itemId == itemId && q.runOnce
    {
      AnyRow(rows, q => InfoQueryFor(q, itemId))
    }
  }

  /**
    The claim's subquery: the first `limit` eligible rows in id order. The
    table is kept in id order, so a scan that stops after `limit` picks finds them.
   */
  method SelectForClaim(table: seq<Query>, runOnce: bool, now: int, limit: nat) returns (picked: seq<Query>)
    ensures picked == Selection(table, runOnce, now, limit)
  {
    picked := [];
    var i := 0;
    while i < |table| && |picked| < limit
      invariant 0 <= i <= |table| && |picked| <= limit
      invariant Selection(table, runOnce, now, limit) == picked + Selection(table[i..], runOnce, now, limit - |picked|)
    {
      SelectionFrom(table, runOnce, now, limit, picked, i);
      if Eligible(table[i], runOnce, now) {
        picked := picked + [table[i]];
      }
      i := i + 1;
    }
  }

  /**
    The claim's update: lease every row whose id is in `ids` and give back the
    new table and the leased rows, in table order.
   */
  method LeaseSelected(table: seq<Query>, ids: set<int>, now: int) returns (updated: seq<Query>, returned: seq<Query>)
    ensures updated == LeaseWhere(table, ids, now)
    ensures returned == Returning(table, ids, now)
  {
    updated, returned := [], [];
    for j := 0 to |table|
      invariant |updated| == j
      invariant forall k :: 0 <= k < j ==> updated[k] == if table[k].id in ids then Lease(table[k], now) else table[k]
      invariant Returning(table, ids, now) == returned + Returning(table[j..], ids, now)
    {
      ReturningFrom(table, ids, now, j);
      if table[j].id in ids {
        var rest := Returning(table[j + 1..], ids, now);
        assert returned + ([Lease(table[j], now)] + rest) == (returned + [Lease(table[j], now)]) + rest;
        updated := updated + [Lease(table[j], now)];
        returned := returned + [Lease(table[j], now)];
      } else {
        updated := updated + [table[j]];
      }
    }
    assert table[|table|..] == [];
  }
}
