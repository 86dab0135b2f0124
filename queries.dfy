/**
  The `queries` table of the job store and the meaning of the SQL statements
  that drive a query's lifecycle, as functions over a sequence of rows kept in
  ascending `id` order. Timestamps are unix seconds; `now` is passed in.
 */
module Queries {

  /** The `status` column. */
  datatype Status = Queued | InProgress

  /** One row of the `queries` table. `updateInterval` is in hours. */
  datatype Query = Query(
    id: int,
    itemId: string,
    realm: string,
    league: string,
    searchQuery: string,
    updateInterval: int,
    nextRun: int,
    status: Status,
    startedAt: int,
    runOnce: bool)

  /** A lease lasts five minutes. */
  const LeaseSeconds: int := 300
  /** A claim hands out at most this many rows (`LIMIT 4`). */
  const BatchSize: nat := 4
  const SecondsPerHour: int := 3600

  /** The row holds a lease taken within the last `LeaseSeconds` before `now`. */
  predicate LeaseLive(q: Query, now: int)
  {
    q.status == InProgress && now - LeaseSeconds <= q.startedAt
  }

  /**
    The claim's `WHERE` clause for the pool `runOnce` at time `now`: the row is
    due, belongs to the pool, and no live lease holds it.
   */
  predicate Eligible(q: Query, runOnce: bool, now: int): (b: bool)
    ensures b <==> q.nextRun < now && q.runOnce == runOnce && !LeaseLive(q, now)
  {
    && (q.status == Queued || (q.status == InProgress && q.startedAt < now - LeaseSeconds))
    && q.nextRun < now
    && q.runOnce == runOnce
  }

  /** A queued row holds no lease. */
  predicate LeaseConsistent(q: Query)
  {
    q.status == Queued ==> q.startedAt == 0
  }

  /** Row ids are strictly ascending, hence unique. */
  predicate IdsAscending(rows: seq<Query>)
  {
    forall i, j :: 0 <= i < j < |rows| ==> rows[i].id < rows[j].id
  }

  function IdsOf(s: seq<Query>): set<int>
  {
    set q | q in s :: q.id
  }

  // ---------------------------------------------------------------------
  // Claim: lease the eligible rows with the smallest ids, at most four of them,
  // and return them as updated.

  /**
    The claim's subquery: the first `budget` eligible rows of the table, in
    table (that is, id) order.
   */
  function Selection(rows: seq<Query>, runOnce: bool, now: int, budget: nat): (sel: seq<Query>)
    ensures |sel| <= budget && |sel| <= |rows|
  {
    if rows == [] || budget == 0 then []
    else if Eligible(rows[0], runOnce, now) then [rows[0]] + Selection(rows[1..], runOnce, now, budget - 1)
    else Selection(rows[1..], runOnce, now, budget)
  }

  /** Every selected row is a row of the table that is eligible. */
  lemma {:induction false} SelectionRows(rows: seq<Query>, runOnce: bool, now: int, budget: nat)
    ensures forall q :: q in Selection(rows, runOnce, now, budget) ==> q in rows && Eligible(q, runOnce, now)
  {
    if rows != [] && budget != 0 {
      var b' := if Eligible(rows[0], runOnce, now) then budget - 1 else budget;
      SelectionRows(rows[1..], runOnce, now, b');
      assert rows == [rows[0]] + rows[1..];
    }
  }

  /** The row leased at `now`: in progress since `now`, every other column kept. */
  function Lease(q: Query, now: int): (r: Query)
    ensures r.status == InProgress && r.startedAt == now && LeaseLive(r, now)
    ensures r.(status := q.status, startedAt := q.startedAt) == q
  {
    q.(status := InProgress, startedAt := now)
  }

  /** The table after leasing every row whose id is in `ids`. */
  function LeaseWhere(rows: seq<Query>, ids: set<int>, now: int): (r: seq<Query>)
    ensures |r| == |rows|
    ensures forall k :: 0 <= k < |rows| ==> r[k].id == rows[k].id && r[k].runOnce == rows[k].runOnce
    ensures forall k :: 0 <= k < |rows| && rows[k].id !in ids ==> r[k] == rows[k]
  {
    seq(|rows|, k requires 0 <= k < |rows| => if rows[k].id in ids then Lease(rows[k], now) else rows[k])
  }

  /** The `RETURNING` rows of that update, in table order. */
  function Returning(rows: seq<Query>, ids: set<int>, now: int): (r: seq<Query>)
    ensures |r| <= |rows|
  {
    if rows == [] then []
    else (if rows[0].id in ids then [Lease(rows[0], now)] else []) + Returning(rows[1..], ids, now)
  }

  /** Every returned row has an id in `ids` and is leased at `now`. */
  lemma {:induction false} ReturningLeased(rows: seq<Query>, ids: set<int>, now: int)
    ensures forall c :: c in Returning(rows, ids, now) ==> c.id in ids && c.status == InProgress && c.startedAt == now
  {
    if rows != [] {
      ReturningLeased(rows[1..], ids, now);
    }
  }

  function LeaseAll(s: seq<Query>, now: int): seq<Query>
  {
    seq(|s|, k requires 0 <= k < |s| => Lease(s[k], now))
  }

  /** The rows a claim on pool `runOnce` at `now` picks. */
  function Claimed(rows: seq<Query>, runOnce: bool, now: int): (c: seq<Query>)
    ensures |c| <= BatchSize && |c| <= |rows|
  {
    Selection(rows, runOnce, now, BatchSize)
  }

  /** The table after a claim: same length, same ids in the same places. */
  function ClaimTable(rows: seq<Query>, runOnce: bool, now: int): (r: seq<Query>)
    ensures |r| == |rows|
    ensures forall k :: 0 <= k < |rows| ==> r[k].id == rows[k].id
  {
    LeaseWhere(rows, IdsOf(Claimed(rows, runOnce, now)), now)
  }

  /** What a claim returns: rows with a claimed id, each leased at `now`. */
  function ClaimResult(rows: seq<Query>, runOnce: bool, now: int): (r: seq<Query>)
    ensures forall c :: c in r ==> c.id in IdsOf(Claimed(rows, runOnce, now)) && c.status == InProgress && c.startedAt == now
  {
    ReturningLeased(rows, IdsOf(Claimed(rows, runOnce, now)), now);
    Returning(rows, IdsOf(Claimed(rows, runOnce, now)), now)
  }

  /**
    One step of the claim's subquery scan: `picked` followed by the selection
    from position `i` on is the selection from `i + 1` on after `rows[i]` is
    considered.
   */
  lemma SelectionFrom(rows: seq<Query>, runOnce: bool, now: int, budget: nat, picked: seq<Query>, i: int)
    requires 0 <= i < |rows| && |picked| < budget
    ensures var picked' := if Eligible(rows[i], runOnce, now) then picked + [rows[i]] else picked;
      picked + Selection(rows[i..], runOnce, now, budget - |picked|) ==
      picked' + Selection(rows[i + 1..], runOnce, now, budget - |picked'|)
  {
    assert rows[i..][1..] == rows[i + 1..];
    if Eligible(rows[i], runOnce, now) {
      var rest := Selection(rows[i + 1..], runOnce, now, budget - |picked| - 1);
      assert picked + ([rows[i]] + rest) == (picked + [rows[i]]) + rest;
    }
  }

  /** One step of the `RETURNING` rows, from position `i` of the table. */
  lemma ReturningFrom(rows: seq<Query>, ids: set<int>, now: int, i: int)
    requires 0 <= i < |rows|
    ensures Returning(rows[i..], ids, now) ==
      (if rows[i].id in ids then [Lease(rows[i], now)] else []) + Returning(rows[i + 1..], ids, now)
  {
    assert rows[i..][1..] == rows[i + 1..];
  }

  /** One step of the delete's scan, from position `i` of the table. */
  lemma WithoutFrom(rows: seq<Query>, id: int, kept: seq<Query>, i: int)
    requires 0 <= i < |rows|
    ensures var kept' := if rows[i].id != id then kept + [rows[i]] else kept;
      kept + Without(rows[i..], id) == kept' + Without(rows[i + 1..], id)
  {
    assert rows[i..][1..] == rows[i + 1..];
    if rows[i].id != id {
      var rest := Without(rows[i + 1..], id);
      assert kept + ([rows[i]] + rest) == (kept + [rows[i]]) + rest;
    }
  }

  lemma IdsAscendingTail(rows: seq<Query>)
    requires rows != []
    ensures IdsAscending(rows) ==> IdsAscending(rows[1..]) && forall q :: q in rows[1..] ==> rows[0].id < q.id
  {
    if IdsAscending(rows) {
      forall q | q in rows[1..] ensures rows[0].id < q.id {
        var j :| 0 <= j < |rows[1..]| && rows[1..][j] == q;
        assert rows[j + 1] == q;
      }
    }
  }

  /**
    Smallest ids first: an eligible row the selection leaves out is there only
    because the budget is used up, by rows with smaller ids. So if fewer than
    `budget` rows are eligible, all of them are selected.
   */
  lemma {:induction false} SelectionSmallestFirst(rows: seq<Query>, runOnce: bool, now: int, budget: nat, q: Query)
    requires IdsAscending(rows)
    requires q in rows && Eligible(q, runOnce, now)
    requires q !in Selection(rows, runOnce, now, budget)
    ensures |Selection(rows, runOnce, now, budget)| == budget
    ensures forall s :: s in Selection(rows, runOnce, now, budget) ==> s.id < q.id
  {
    if budget != 0 && q != rows[0] {
      IdsAscendingTail(rows);
      assert q in rows[1..];
      if Eligible(rows[0], runOnce, now) {
        SelectionSmallestFirst(rows[1..], runOnce, now, budget - 1, q);
      } else {
        SelectionSmallestFirst(rows[1..], runOnce, now, budget, q);
      }
    }
  }

  /**
    The selection keeps the table's id order, so it holds no row twice: with
    the budget filled it is exactly the `budget` smallest-id eligible rows.
   */
  lemma {:induction false} SelectionAscending(rows: seq<Query>, runOnce: bool, now: int, budget: nat)
    requires IdsAscending(rows)
    ensures IdsAscending(Selection(rows, runOnce, now, budget))
  {
    if rows != [] && budget != 0 {
      IdsAscendingTail(rows);
      var b' := if Eligible(rows[0], runOnce, now) then budget - 1 else budget;
      var rest := Selection(rows[1..], runOnce, now, b');
      SelectionAscending(rows[1..], runOnce, now, b');
      if Eligible(rows[0], runOnce, now) {
        SelectionRows(rows[1..], runOnce, now, b');
        var sel := [rows[0]] + rest;
        forall i, j | 0 <= i < j < |sel| ensures sel[i].id < sel[j].id {
          assert sel[j] == rest[j - 1] && sel[j] in rest;
          if i > 0 {
            assert sel[i] == rest[i - 1];
          }
        }
      }
    }
  }

  /** If a claim picks fewer than `BatchSize` rows, it picks every eligible row. */
  lemma ClaimTakesAllWhenFew(rows: seq<Query>, runOnce: bool, now: int)
    requires IdsAscending(rows)
    requires |Claimed(rows, runOnce, now)| < BatchSize
    ensures forall q :: q in rows && Eligible(q, runOnce, now) ==> q in Claimed(rows, runOnce, now)
  {
    forall q | q in rows && Eligible(q, runOnce, now) ensures q in Claimed(rows, runOnce, now) {
      if q !in Claimed(rows, runOnce, now) {
        SelectionSmallestFirst(rows, runOnce, now, BatchSize, q);
      }
    }
  }

  /** With unique ids, a row's id is selected exactly when the row is. */
  lemma SelectedId(rows: seq<Query>, runOnce: bool, now: int, budget: nat, i: int)
    requires IdsAscending(rows) && 0 <= i < |rows|
    ensures rows[i].id in IdsOf(Selection(rows, runOnce, now, budget)) <==> rows[i] in Selection(rows, runOnce, now, budget)
  {
    var sel := Selection(rows, runOnce, now, budget);
    SelectionRows(rows, runOnce, now, budget);
    if rows[i].id in IdsOf(sel) {
      var s :| s in sel && s.id == rows[i].id;
      var j :| 0 <= j < |rows| && rows[j] == s;
      assert j == i;
    }
  }

  lemma {:induction false} ReturningNone(rows: seq<Query>, ids: set<int>, now: int)
    requires forall q :: q in rows ==> q.id !in ids
    ensures Returning(rows, ids, now) == []
  {
    if rows != [] {
      assert rows[0] in rows;
      ReturningNone(rows[1..], ids, now);
    }
  }

  lemma {:induction false} ReturningCongruent(rows: seq<Query>, a: set<int>, b: set<int>, now: int)
    requires forall q :: q in rows ==> (q.id in a <==> q.id in b)
    ensures Returning(rows, a, now) == Returning(rows, b, now)
  {
    if rows != [] {
      assert rows[0] in rows;
      ReturningCongruent(rows[1..], a, b, now);
    }
  }

  lemma {:induction false} ReturningSelection(rows: seq<Query>, runOnce: bool, now: int, budget: nat, t: int)
    requires IdsAscending(rows)
    ensures Returning(rows, IdsOf(Selection(rows, runOnce, now, budget)), t) == LeaseAll(Selection(rows, runOnce, now, budget), t)
  {
    if rows == [] {
    } else if budget == 0 {
      assert IdsOf(Selection(rows, runOnce, now, budget)) == {};
      ReturningNone(rows, {}, t);
    } else {
      IdsAscendingTail(rows);
      var b' := if Eligible(rows[0], runOnce, now) then budget - 1 else budget;
      ReturningSelection(rows[1..], runOnce, now, b', t);
      ReturningSelectionStep(rows, runOnce, now, budget, t);
    }
  }

  /** The inductive step of ReturningSelection: the head row is selected exactly when it is eligible. */
  lemma ReturningSelectionStep(rows: seq<Query>, runOnce: bool, now: int, budget: nat, t: int)
    requires rows != [] && budget > 0
    requires forall q :: q in rows[1..] ==> rows[0].id < q.id
    requires var b' := if Eligible(rows[0], runOnce, now) then budget - 1 else budget;
      var sel' := Selection(rows[1..], runOnce, now, b');
      Returning(rows[1..], IdsOf(sel'), t) == LeaseAll(sel', t)
    ensures Returning(rows, IdsOf(Selection(rows, runOnce, now, budget)), t) == LeaseAll(Selection(rows, runOnce, now, budget), t)
  {
    var r, rest := rows[0], rows[1..];
    var sel := Selection(rows, runOnce, now, budget);
    var b' := if Eligible(r, runOnce, now) then budget - 1 else budget;
    var sel' := Selection(rest, runOnce, now, b');
    SmallerIdNotSelected(r.id, rest, runOnce, now, b');
    if Eligible(r, runOnce, now) {
      assert sel == [r] + sel';
      ConsIds(r, sel');
      calc {
        Returning(rows, IdsOf(sel), t);
        [Lease(r, t)] + Returning(rest, IdsOf(sel), t);
        { ReturningCongruent(rest, IdsOf(sel), IdsOf(sel'), t); }
        [Lease(r, t)] + Returning(rest, IdsOf(sel'), t);
        [Lease(r, t)] + LeaseAll(sel', t);
        { LeaseAllCons(r, sel', t); }
        LeaseAll(sel, t);
      }
    } else {
      assert sel == sel';
    }
  }

  lemma SmallerIdNotSelected(id: int, rows: seq<Query>, runOnce: bool, now: int, budget: nat)
    requires forall q :: q in rows ==> id < q.id
    ensures id !in IdsOf(Selection(rows, runOnce, now, budget))
  {
    SelectionRows(rows, runOnce, now, budget);
  }

  lemma LeaseAllCons(r: Query, s: seq<Query>, t: int)
    ensures LeaseAll([r] + s, t) == [Lease(r, t)] + LeaseAll(s, t)
  {
  }

  lemma ConsIds(r: Query, s: seq<Query>)
    ensures IdsOf([r] + s) == {r.id} + IdsOf(s)
  {
  }

  /**
    A claim returns at most `BatchSize` rows: the post-update values of the
    selected rows, in id order, each now `in_progress` with `started_at = now`
    and every other field as it was.
   */
  lemma ClaimReturnsLeasedSelection(rows: seq<Query>, runOnce: bool, now: int)
    requires IdsAscending(rows)
    ensures ClaimResult(rows, runOnce, now) == LeaseAll(Claimed(rows, runOnce, now), now)
    ensures |ClaimResult(rows, runOnce, now)| <= BatchSize
    ensures forall k :: 0 <= k < |ClaimResult(rows, runOnce, now)| ==>
      var c, q := ClaimResult(rows, runOnce, now)[k], Claimed(rows, runOnce, now)[k];
      && q in rows && Eligible(q, runOnce, now)
      && c.status == InProgress && c.startedAt == now
      && c.(status := q.status, startedAt := q.startedAt) == q
  {
    ReturningSelection(rows, runOnce, now, BatchSize, now);
    SelectionRows(rows, runOnce, now, BatchSize);
  }

  /**
    The claimed rows are leased and every other row is left as it was; the
    claim keeps ids, order and the queued-means-unleased invariant.
   */
  lemma ClaimUpdatesOnlyClaimed(rows: seq<Query>, runOnce: bool, now: int)
    requires IdsAscending(rows)
    ensures |ClaimTable(rows, runOnce, now)| == |rows|
    ensures forall i :: 0 <= i < |rows| ==>
      ClaimTable(rows, runOnce, now)[i] == if rows[i] in Claimed(rows, runOnce, now) then Lease(rows[i], now) else rows[i]
    ensures IdsAscending(ClaimTable(rows, runOnce, now))
    ensures (forall q :: q in rows ==> LeaseConsistent(q)) ==> forall q :: q in ClaimTable(rows, runOnce, now) ==> LeaseConsistent(q)
  {
    forall i | 0 <= i < |rows| {
      SelectedId(rows, runOnce, now, BatchSize, i);
    }
  }

  /**
    Pool isolation: a claim changes no row of the other `run_once` pool, and
    no row that was not eligible.
   */
  lemma ClaimIsolatesPool(rows: seq<Query>, runOnce: bool, now: int)
    requires IdsAscending(rows)
    ensures forall i :: 0 <= i < |rows| && !Eligible(rows[i], runOnce, now) ==> ClaimTable(rows, runOnce, now)[i] == rows[i]
    ensures forall i :: 0 <= i < |rows| && rows[i].runOnce != runOnce ==> ClaimTable(rows, runOnce, now)[i] == rows[i]
    ensures forall c :: c in ClaimResult(rows, runOnce, now) ==> c.runOnce == runOnce
  {
    ClaimUpdatesOnlyClaimed(rows, runOnce, now);
    ClaimReturnsLeasedSelection(rows, runOnce, now);
  }

  /**
    Lease expiry: a row claimed at `t` is eligible again at `t2`, for pool
    `runOnce2`, exactly when the lease has run out (`t < t2 - 300`), it is
    due and it belongs to that pool.
   */
  lemma LeasedRowEligibility(rows: seq<Query>, runOnce: bool, t: int, i: int, runOnce2: bool, t2: int)
    requires IdsAscending(rows) && 0 <= i < |rows|
    requires rows[i] in Claimed(rows, runOnce, t)
    ensures Eligible(ClaimTable(rows, runOnce, t)[i], runOnce2, t2) <==>
      t < t2 - LeaseSeconds && rows[i].nextRun < t2 && rows[i].runOnce == runOnce2
  {
    ClaimUpdatesOnlyClaimed(rows, runOnce, t);
  }

  /**
    No row is handed out twice within a lease: a claim at `t2` with
    `t2 - 300 <= t`, on either pool, returns none of the ids a claim at `t`
    returned. With `t2 == t` this is the no-double-claim property.
   */
  lemma NoReclaimWithinLease(rows: seq<Query>, runOnce: bool, t: int, runOnce2: bool, t2: int)
    requires IdsAscending(rows)
    requires t2 - LeaseSeconds <= t
    ensures IdsOf(ClaimResult(ClaimTable(rows, runOnce, t), runOnce2, t2)) !! IdsOf(ClaimResult(rows, runOnce, t))
  {
    var table := ClaimTable(rows, runOnce, t);
    ClaimUpdatesOnlyClaimed(rows, runOnce, t);
    ClaimReturnsLeasedSelection(rows, runOnce, t);
    ClaimReturnsLeasedSelection(table, runOnce2, t2);
    var first, second := Claimed(rows, runOnce, t), Claimed(table, runOnce2, t2);
    LeaseAllIds(first, t);
    LeaseAllIds(second, t2);
    forall x | x in IdsOf(ClaimResult(table, runOnce2, t2)) ensures x !in IdsOf(ClaimResult(rows, runOnce, t)) {
      var s :| s in second && s.id == x;
      var j :| 0 <= j < |table| && table[j] == s;
      SelectedId(rows, runOnce, t, BatchSize, j);
      assert rows[j] !in first;
    }
  }

  /**
    A claim at `t2` neither touches nor returns a row whose lease is still
    live at `t2`, whichever pool it serves.
   */
  lemma LiveLeaseSurvivesClaim(rows: seq<Query>, i: int, runOnce: bool, t2: int)
    requires IdsAscending(rows) && 0 <= i < |rows|
    requires LeaseLive(rows[i], t2)
    ensures ClaimTable(rows, runOnce, t2)[i] == rows[i]
    ensures rows[i].id !in IdsOf(ClaimResult(rows, runOnce, t2))
  {
    ClaimIsolatesPool(rows, runOnce, t2);
    ClaimReturnsLeasedSelection(rows, runOnce, t2);
    LeaseAllIds(Claimed(rows, runOnce, t2), t2);
    SelectedId(rows, runOnce, t2, BatchSize, i);
    SelectionRows(rows, runOnce, t2, BatchSize);
  }

  /** The table after the claims `claims` (pool, time) are made one after another. */
  function ClaimSeries(rows: seq<Query>, claims: seq<(bool, int)>): (r: seq<Query>)
    ensures |r| == |rows|
    decreases claims
  {
    if claims == [] then rows
    else ClaimSeries(ClaimTable(rows, claims[0].0, claims[0].1), claims[1..])
  }

  /** The first `k` claims of a series are its first claim, then the next `k - 1`. */
  lemma ClaimSeriesPrefix(rows: seq<Query>, claims: seq<(bool, int)>, k: int)
    requires 0 < k <= |claims|
    ensures ClaimSeries(rows, claims[..k]) ==
      ClaimSeries(ClaimTable(rows, claims[0].0, claims[0].1), claims[1..][..k - 1])
  {
    assert claims[..k][1..] == claims[1..][..k - 1];
  }

  /**
    No reclaim while a lease lasts: a row whose lease is live at the time of
    every claim in a series stays as it is, and none of those claims returns
    its id, on either pool.
   */
  lemma {:induction false} NoReclaimWhileLeased(rows: seq<Query>, i: int, claims: seq<(bool, int)>)
    requires IdsAscending(rows) && 0 <= i < |rows|
    requires forall k :: 0 <= k < |claims| ==> LeaseLive(rows[i], claims[k].1)
    ensures ClaimSeries(rows, claims)[i] == rows[i]
    ensures forall k :: 0 <= k < |claims| ==>
      rows[i].id !in IdsOf(ClaimResult(ClaimSeries(rows, claims[..k]), claims[k].0, claims[k].1))
    decreases claims
  {
    if claims != [] {
      var c := claims[0];
      var next := ClaimTable(rows, c.0, c.1);
      LiveLeaseSurvivesClaim(rows, i, c.0, c.1);
      ClaimUpdatesOnlyClaimed(rows, c.0, c.1);
      assert next[i] == rows[i];
      NoReclaimWhileLeased(next, i, claims[1..]);
      forall k | 0 <= k < |claims|
        ensures rows[i].id !in IdsOf(ClaimResult(ClaimSeries(rows, claims[..k]), claims[k].0, claims[k].1))
      {
        if k == 0 {
          assert claims[..0] == [];
        } else {
          ClaimSeriesPrefix(rows, claims, k);
          assert claims[k] == claims[1..][k - 1];
        }
      }
    }
  }

  lemma LeaseAllIds(s: seq<Query>, now: int)
    ensures IdsOf(LeaseAll(s, now)) == IdsOf(s)
  {
    var l := LeaseAll(s, now);
    forall x | x in IdsOf(s) ensures x in IdsOf(l) {
      var k :| 0 <= k < |s| && s[k].id == x;
      assert l[k].id == x;
    }
  }

  // ---------------------------------------------------------------------
  // Reschedule: the row with the given id and league gets its next run set and
  // its lease released.

  /**
    `next_run` after a reschedule `updateHours` hours from `now`: a whole number
    of hours after `now`, from which the interval can be read back.
   */
  function NextRunAfter(now: int, updateHours: int): (t: int)
    ensures (t - now) % SecondsPerHour == 0 && (t - now) / SecondsPerHour == updateHours
    ensures updateHours > 0 ==> now < t
  {
    now + updateHours * SecondsPerHour
  }

  predicate Targets(q: Query, id: int, league: string)
  {
    q.id == id && q.league == league
  }

  /** The row with its lease released and its next run set; other columns kept. */
  function Release(q: Query, nextRun: int): (r: Query)
    ensures r.status == Queued && r.startedAt == 0 && r.nextRun == nextRun && LeaseConsistent(r)
    ensures r.(nextRun := q.nextRun, status := q.status, startedAt := q.startedAt) == q
  {
    q.(nextRun := nextRun, status := Queued, startedAt := 0)
  }

  /** The table after a reschedule: only rows with the id and the league change. */
  function RescheduleTable(rows: seq<Query>, id: int, league: string, nextRun: int): (r: seq<Query>)
    ensures |r| == |rows|
    ensures forall k :: 0 <= k < |rows| ==> r[k].id == rows[k].id && r[k].itemId == rows[k].itemId && r[k].league == rows[k].league && r[k].runOnce == rows[k].runOnce
    ensures forall k :: 0 <= k < |rows| && !Targets(rows[k], id, league) ==> r[k] == rows[k]
    ensures forall k :: 0 <= k < |rows| && Targets(rows[k], id, league) ==> r[k] == Release(rows[k], nextRun)
  {
    seq(|rows|, k requires 0 <= k < |rows| => if Targets(rows[k], id, league) then Release(rows[k], nextRun) else rows[k])
  }

  /** A reschedule whose id and league match no row leaves the table unchanged. */
  lemma RescheduleMismatchIsNoOp(rows: seq<Query>, id: int, league: string, nextRun: int)
    requires forall q :: q in rows ==> !Targets(q, id, league)
    ensures RescheduleTable(rows, id, league, nextRun) == rows
  {
    var r := RescheduleTable(rows, id, league, nextRun);
    forall k | 0 <= k < |rows| ensures r[k] == rows[k] {
      assert rows[k] in rows;
    }
  }

  /**
    A reschedule keeps ids, order and the queued-means-unleased invariant;
    the targeted rows are queued with no lease, every other row is unchanged.
   */
  lemma RescheduleKeepsTable(rows: seq<Query>, id: int, league: string, nextRun: int)
    requires IdsAscending(rows)
    ensures IdsAscending(RescheduleTable(rows, id, league, nextRun))
    ensures (forall q :: q in rows ==> LeaseConsistent(q)) ==>
      forall q :: q in RescheduleTable(rows, id, league, nextRun) ==> LeaseConsistent(q)
    ensures forall k :: 0 <= k < |rows| && Targets(rows[k], id, league) ==>
      var q := RescheduleTable(rows, id, league, nextRun)[k];
      q.status == Queued && q.startedAt == 0 && q.nextRun == nextRun
  {
    var r := RescheduleTable(rows, id, league, nextRun);
    forall q | q in r && (forall p :: p in rows ==> LeaseConsistent(p)) ensures LeaseConsistent(q) {
      var k :| 0 <= k < |r| && r[k] == q;
      assert rows[k] in rows;
    }
  }

  /**
    A rescheduled row is not handed out again before it is due: no claim at
    `t2 <= nextRun`, on either pool, selects a row with the rescheduled id and
    league.
   */
  lemma RescheduledNotDue(rows: seq<Query>, id: int, league: string, nextRun: int, runOnce: bool, t2: int)
    requires t2 <= nextRun
    ensures forall q :: q in Claimed(RescheduleTable(rows, id, league, nextRun), runOnce, t2) ==> !Targets(q, id, league)
  {
    var r := RescheduleTable(rows, id, league, nextRun);
    SelectionRows(r, runOnce, t2, BatchSize);
    forall q | q in Claimed(r, runOnce, t2) ensures !Targets(q, id, league) {
      var k :| 0 <= k < |r| && r[k] == q;
    }
  }

  // ---------------------------------------------------------------------
  // Delete: remove the row with the given id.

  /** The table without the row whose id is `id`, other rows in order. */
  function Without(rows: seq<Query>, id: int): (r: seq<Query>)
    ensures |r| <= |rows|
    ensures forall i :: 0 <= i < |r| ==> r[i].id != id
  {
    if rows == [] then []
    else (if rows[0].id == id then [] else [rows[0]]) + Without(rows[1..], id)
  }

  /** A delete removes exactly the rows with the id and keeps every other row. */
  lemma {:induction false} WithoutMembers(rows: seq<Query>, id: int)
    ensures forall q :: q in Without(rows, id) <==> q in rows && q.id != id
  {
    if rows != [] {
      WithoutMembers(rows[1..], id);
      assert rows == [rows[0]] + rows[1..];
    }
  }

  /** A delete keeps the table in ascending id order. */
  lemma {:induction false} WithoutAscending(rows: seq<Query>, id: int)
    requires IdsAscending(rows)
    ensures IdsAscending(Without(rows, id))
  {
    if rows != [] {
      var h, w := rows[0], Without(rows[1..], id);
      IdsAscendingTail(rows);
      WithoutAscending(rows[1..], id);
      if h.id != id {
        WithoutMembers(rows[1..], id);
        var r := [h] + w;
        forall i, j | 0 <= i < j < |r| ensures r[i].id < r[j].id {
          assert r[j] == w[j - 1] && r[j] in w;
          if i > 0 {
            assert r[i] == w[i - 1];
          }
        }
      }
    }
  }

  /** A delete keeps every row's id below `bound` and keeps queued rows unleased. */
  lemma WithoutKeepsRows(rows: seq<Query>, id: int, bound: int)
    requires forall i :: 0 <= i < |rows| ==> rows[i].id < bound && LeaseConsistent(rows[i])
    ensures forall i :: 0 <= i < |Without(rows, id)| ==> Without(rows, id)[i].id < bound && LeaseConsistent(Without(rows, id)[i])
  {
    var w := Without(rows, id);
    WithoutMembers(rows, id);
    forall i | 0 <= i < |w| ensures w[i].id < bound && LeaseConsistent(w[i]) {
      assert w[i] in rows;
      var j :| 0 <= j < |rows| && rows[j] == w[i];
    }
  }

  /** Deleting an id that no row has leaves the table unchanged. */
  lemma {:induction false} WithoutAbsent(rows: seq<Query>, id: int)
    requires forall q :: q in rows ==> q.id != id
    ensures Without(rows, id) == rows
  {
    if rows != [] {
      assert rows[0] in rows;
      WithoutAbsent(rows[1..], id);
      assert rows == [rows[0]] + rows[1..];
    }
  }

  // ---------------------------------------------------------------------
  // Existence checks: whether any row meets a condition.

  /** Whether some row satisfies `p`. */
  function AnyRow(rows: seq<Query>, p: Query -> bool): (b: bool)
    ensures b <==> exists i :: 0 <= i < |rows| && p(rows[i])
  {
    if rows == [] then false
    else p(rows[0]) || AnyRow(rows[1..], p)
  }

  /** The `HasPriceQuery` condition: a recurring query for the item in the league. */
  predicate PriceQueryFor(q: Query, itemId: string, league: string): (b: bool)
    ensures b ==> !InfoQueryFor(q, itemId)
  {
    q.itemId == itemId && q.league == league && !q.runOnce
  }

  /** The first condition of `HasInfo`: a one-shot query for the item. */
  predicate InfoQueryFor(q: Query, itemId: string)
  {
    q.itemId == itemId && q.runOnce
  }

  /**
    Claims and reschedules change neither `item_id`, `league` nor `run_once`,
    so they never change what the existence checks report.
   */
  lemma LifecycleKeepsExistence(rows: seq<Query>, runOnce: bool, now: int, id: int, league: string, nextRun: int, itemId: string, l: string)
    ensures AnyRow(ClaimTable(rows, runOnce, now), q => PriceQueryFor(q, itemId, l)) == AnyRow(rows, q => PriceQueryFor(q, itemId, l))
    ensures AnyRow(ClaimTable(rows, runOnce, now), q => InfoQueryFor(q, itemId)) == AnyRow(rows, q => InfoQueryFor(q, itemId))
    ensures AnyRow(RescheduleTable(rows, id, league, nextRun), q => PriceQueryFor(q, itemId, l)) == AnyRow(rows, q => PriceQueryFor(q, itemId, l))
    ensures AnyRow(RescheduleTable(rows, id, league, nextRun), q => InfoQueryFor(q, itemId)) == AnyRow(rows, q => InfoQueryFor(q, itemId))
  {
    var c := ClaimTable(rows, runOnce, now);
    assert forall k :: 0 <= k < |rows| ==> c[k].itemId == rows[k].itemId && c[k].league == rows[k].league && c[k].runOnce == rows[k].runOnce;
    SameKeysSameExistence(c, rows, itemId, l);
    SameKeysSameExistence(RescheduleTable(rows, id, league, nextRun), rows, itemId, l);
  }

  /** Tables that agree on `item_id`, `league` and `run_once` row by row answer both checks alike. */
  lemma SameKeysSameExistence(a: seq<Query>, b: seq<Query>, itemId: string, l: string)
    requires |a| == |b|
    requires forall k :: 0 <= k < |a| ==> a[k].itemId == b[k].itemId && a[k].league == b[k].league && a[k].runOnce == b[k].runOnce
    ensures AnyRow(a, q => PriceQueryFor(q, itemId, l)) == AnyRow(b, q => PriceQueryFor(q, itemId, l))
    ensures AnyRow(a, q => InfoQueryFor(q, itemId)) == AnyRow(b, q => InfoQueryFor(q, itemId))
  {
  }

  /**
    After deleting `id`, a recurring query for the item in the league exists
    exactly when one with another id existed before.
   */
  lemma DeleteExistence(rows: seq<Query>, id: int, itemId: string, league: string)
    ensures AnyRow(Without(rows, id), q => PriceQueryFor(q, itemId, league)) <==>
      exists q :: q in rows && q.id != id && PriceQueryFor(q, itemId, league)
  {
    var w := Without(rows, id);
    WithoutMembers(rows, id);
    if exists q :: q in rows && q.id != id && PriceQueryFor(q, itemId, league) {
      var q :| q in rows && q.id != id && PriceQueryFor(q, itemId, league);
      assert q in w;
      var k :| 0 <= k < |w| && w[k] == q;
    }
  }

  // ---------------------------------------------------------------------

  /**
    A recurring job due a second ago is claimed; rescheduled for 24 hours
    later it is queued again and a claim at the same instant returns nothing.
   */
  lemma RecurringScenario(now: int)
    ensures
      var a := Query(1, "item", "realm", "league", "search", 24, now - 1, Queued, 0, false);
      var afterClaim := ClaimTable([a], false, now);
      var afterReschedule := RescheduleTable(afterClaim, a.id, a.league, NextRunAfter(now, a.updateInterval));
      && ClaimResult([a], false, now) == [Lease(a, now)]
      && afterClaim == [Lease(a, now)]
      && afterReschedule == [a.(nextRun := now + 86400)]
      && ClaimResult(afterReschedule, false, now) == []
  {
    var a := Query(1, "item", "realm", "league", "search", 24, now - 1, Queued, 0, false);
    assert Claimed([a], false, now) == [a];
    assert IdsOf([a]) == {1};
    assert [a][1..] == [];
    assert Returning([a], {1}, now) == [Lease(a, now)] + Returning([], {1}, now);
    var afterClaim := ClaimTable([a], false, now);
    assert afterClaim == [Lease(a, now)];
    var afterReschedule := RescheduleTable(afterClaim, a.id, a.league, NextRunAfter(now, a.updateInterval));
    assert afterReschedule == [a.(nextRun := now + 86400)];
    assert Claimed(afterReschedule, false, now) == [];
    assert IdsOf([]) == {};
    ReturningNone(afterReschedule, {}, now);
  }
}
