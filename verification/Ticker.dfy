/** One ticker over the schedule tables: `tick`, `lease` and `advance`. */
module Ticker {
  import opened Text
  import opened Calendar
  import opened Schedule
  import opened Leases

  datatype Row = Row(enabled: bool, plan: Plan, next: Option<int>)

  /** Enabled, planned, and not planned later than the clock. */
  predicate Due(row: Row, now: Instant) {
    row.enabled && row.next.Some? && row.next.value * SECOND <= now
  }

  /** The lease key is that of the row's planned time, and the row is up for launch. */
  predicate Launches(row: Row, k: Key, now: Instant, busy: set<int>) {
    Due(row, now) && k.planned == row.next.value && k.id !in busy
  }

  /** What `advance` writes: nothing after an error or a last run. */
  ghost predicate AdvancesTo(plan: Plan, now: Instant, next: Option<int>) {
    exists r :: IsNextRun(plan, now, r)
                && next == if r.Ok? && r.value.Some? then Some(Stored(r.value.value)) else None
  }

  lemma AdvancedIsLater(plan: Plan, now: Instant, next: Option<int>)
    requires Storable(plan) && AdvancesTo(plan, now, next) && next.Some?
    ensures next.value * SECOND > now
  {
    hide IsNextRun;
    var r :| IsNextRun(plan, now, r)
             && next == if r.Ok? && r.value.Some? then Some(Stored(r.value.value)) else None;
    StoredIsLater(plan, now, r);
  }

  lemma AdvancedIsNotEarlier(plan: Plan, now: Instant, next: Option<int>)
    requires Forward(plan) && AdvancesTo(plan, now, next) && next.Some?
    ensures Stored(now) <= next.value
  {
    hide IsNextRun;
    var r :| IsNextRun(plan, now, r)
             && next == if r.Ok? && r.value.Some? then Some(Stored(r.value.value)) else None;
    StoredIsNotEarlier(plan, now, r);
  }

  /** What advance writes is later than the clock whatever the clock. */
  ghost predicate AdvancesLater(plan: Plan) {
    forall now, next :: AdvancesTo(plan, now, next) && next.Some? ==> next.value * SECOND > now
  }

  /** That holds exactly for the plans whose stored next run is always later. */
  lemma AdvancesLaterIff(plan: Plan)
    ensures AdvancesLater(plan) <==> Storable(plan)
  {
    StorableIff(plan);
    hide Storable, IsNextRun;
    if Storable(plan) {
      forall now, next | AdvancesTo(plan, now, next) && next.Some? ensures next.value * SECOND > now {
        AdvancedIsLater(plan, now, next);
      }
    } else {
      var a, r :| IsNextRun(plan, a, r) && r.Ok? && r.value.Some? && Stored(r.value.value) * SECOND <= a;
      assert AdvancesTo(plan, a, Some(Stored(r.value.value)));
    }
  }

  /** A schedule's planned times only ever go up. */
  predicate Increasing(keys: seq<Key>) {
    forall i, j :: 0 <= i < j < |keys| && keys[i].id == keys[j].id ==> keys[i].planned < keys[j].planned
  }

  /** What a tick leaves of a row: a due one advanced, any other as it was. */
  ghost predicate Ticked(before: Row, after: Row, now: Instant) {
    if Due(before, now) then AdvancesTo(before.plan, now, after.next) && after == before.(next := after.next)
    else after == before
  }

  /** No launched time of a schedule lies after the one planned. */
  predicate NotPlannedBefore(started: seq<Key>, rows: map<int, Row>) {
    forall k :: k in started ==> k.id in rows && (rows[k.id].next.Some? ==> k.planned <= rows[k.id].next.value)
  }

  /** One tick: the clock, the order of the listing, and the schedules whose lease
      statement fails. */
  datatype Reading = Reading(now: Instant, order: seq<int>, busy: set<int>)

  /** The order of a listing (`ORDER BY name`): every id once. */
  predicate Lists(order: seq<int>, ids: set<int>) {
    && (forall i :: 0 <= i < |order| ==> order[i] in ids)
    && (forall id :: id in ids ==> id in order)
    && (forall i, j :: 0 <= i < j < |order| ==> order[i] != order[j])
  }

  class Scheduler {
    var rows: map<int, Row>
    var runs: set<Key>
    var launched: seq<Key>

    /** This ticker's tables, as the lease protocol sees them. */
    ghost function View(): Table
      reads this
    {
      Table(map id | id in rows :: rows[id].next, runs, map[], launched)
    }

    /** `lease`; `busy` says that the statement fails in the database. */
    method LeaseRun(id: int, planned: int, busy: bool) returns (ok: bool)
      modifies this`runs
      ensures ok <==> Wins(old(View()), Key(id, planned), busy)
      ensures runs == old(runs) + if ok then {Key(id, planned)} else {}
    {
      ok := !busy && id in rows && Key(id, planned) !in runs;
      if ok { runs := runs + {Key(id, planned)}; }
    }

    method Advance(id: int, plan: Plan, now: Instant) returns (ghost next: Option<int>)
      modifies this`rows
      ensures AdvancesTo(plan, now, next)
      ensures rows == if id in old(rows) then old(rows)[id := old(rows)[id].(next := next)] else old(rows)
    {
      hide IsNextRun;
      var r := NextRun(plan, now);
      var stored := if r.Ok? && r.value.Some? then Some(Stored(r.value.value)) else None;
      next := stored;
      if id in rows { rows := rows[id := rows[id].(next := stored)]; }
    }

    /** One row of a tick: lease, launch on success, advance either way. */
    method TickRow(id: int, row: Row, now: Instant, busy: bool)
      returns (won: bool, ghost next: Option<int>, ghost trace: seq<Action>)
      requires id in rows && rows[id] == row && Due(row, now)
      modifies this
      ensures AdvancesTo(row.plan, now, next)
      ensures rows == old(rows)[id := row.(next := next)]
      ensures launched == old(launched) + if won then [Key(id, row.next.value)] else []
      ensures runs == old(runs) + if won then {Key(id, row.next.value)} else {}
      ensures won <==> !busy && Key(id, row.next.value) !in old(runs)
      ensures Legal(old(View()), trace) && Run(old(View()), trace) == View()
      ensures forall a :: a in trace ==> !a.Create? && !a.Delete?
    {
      hide AdvancesTo, IsNextRun;
      var planned := row.next.value;
      won := LeaseRun(id, planned, busy);
      if won { launched := launched + [Key(id, planned)]; }
      next := Advance(id, row.plan, now);
      trace := [Lease(0, Key(id, planned), busy)] + (if won then [Launch(0)] else []) + [Write(id, next)];
      TickRowTrace(old(View()), View(), id, planned, busy, next, trace);
    }

    /** One pass over the due schedules of a listing: launches exactly the due ones
        whose planned time has no lease yet; `busy` are those whose lease statement fails. */
    method Tick(now: Instant, order: seq<int>, busy: set<int>)
      returns (ghost started: seq<Key>, ghost trace: seq<Action>)
      requires Lists(order, rows.Keys)
      modifies this
      ensures rows.Keys == old(rows).Keys
      ensures forall id :: id in rows ==>
                var row := old(rows)[id];
                if row.enabled && row.next.Some? && row.next.value * SECOND <= now
                then AdvancesTo(row.plan, now, rows[id].next) && rows[id] == row.(next := rows[id].next)
                else rows[id] == row
      ensures launched == old(launched) + started && Distinct(started)
      ensures forall k :: k in started <==>
                && k.id in old(rows) && old(rows)[k.id].enabled && old(rows)[k.id].next == Some(k.planned)
                && k.planned * SECOND <= now && k.id !in busy && k !in old(runs)
      ensures runs == old(runs) + set k | k in started
      ensures Legal(old(View()), trace) && Run(old(View()), trace) == View()
      ensures forall a :: a in trace ==> !a.Create? && !a.Delete?
    {
      hide AdvancesTo, Run, Legal, Scheduler.View, StartsExactly;
      var listing := rows;
      ghost var before := View();
      started, trace := [], [];
      EmptyTrace(before);
      StartsNothing(listing, now, busy, runs);
      for i := 0 to |order|
        invariant rows.Keys == listing.Keys
        invariant forall j :: i <= j < |order| ==> rows[order[j]] == listing[order[j]]
        invariant forall j :: 0 <= j < i ==> Ticked(listing[order[j]], rows[order[j]], now)
        invariant launched == old(launched) + started
        invariant StartsExactly(listing, order[..i], now, busy, old(runs), started, runs)
        invariant Legal(before, trace) && Run(before, trace) == View()
        invariant forall a :: a in trace ==> !a.Create? && !a.Delete?
      {
        var id := order[i];
        assert id in listing && id !in order[..i] && order[..i + 1] == order[..i] + [id];
        StartsOne(listing, order[..i], id, now, busy, old(runs), started, runs);
        if Due(listing[id], now) {
          ghost var next, steps;
          var won;
          won, next, steps := TickRow(id, listing[id], now, id in busy);
          RunConcat(before, trace, steps);
          trace := trace + steps;
          if won { started := started + [Key(id, listing[id].next.value)]; }
        }
      }
      assert order[..|order|] == order;
      StartsAll(listing, order, now, busy, old(runs), started, runs);
      forall id | id in rows ensures Ticked(listing[id], rows[id], now) {
        var j :| 0 <= j < |order| && order[j] == id;
      }
    }

    /** The polling loop: one tick for each reading of a clock that never goes back.
        The schedules are not edited meanwhile and no other process writes. */
    method Poll(readings: seq<Reading>) returns (ghost started: seq<Key>, ghost trace: seq<Action>)
      requires forall i, j :: 0 <= i < j < |readings| ==> readings[i].now <= readings[j].now
      requires forall i :: 0 <= i < |readings| ==> Lists(readings[i].order, rows.Keys)
      modifies this
      ensures launched == old(launched) + started
      ensures (forall k :: k in started ==> k !in old(runs)) && runs == old(runs) + set k | k in started
      ensures Distinct(started)
      // what is launched: enabled schedules, not before their time, which is the one
      // they came with or one that was computed at a reading
      ensures forall k :: k in started ==>
                && k.id in old(rows) && old(rows)[k.id].enabled
                && (exists i :: 0 <= i < |readings| && k.planned * SECOND <= readings[i].now)
                && (old(rows)[k.id].next == Some(k.planned)
                    || exists i :: 0 <= i < |readings|
                                   && AdvancesTo(old(rows)[k.id].plan, readings[i].now, Some(k.planned)))
      // and nothing is missed: at the first reading that is not before its time
      ensures forall id, i :: (
                && id in old(rows) && 0 <= i < |readings|
                && old(rows)[id].enabled && old(rows)[id].next.Some?
                && old(rows)[id].next.value * SECOND <= readings[i].now
                && (forall j :: 0 <= j < i ==> readings[j].now < old(rows)[id].next.value * SECOND)
                && id !in readings[i].busy && Key(id, old(rows)[id].next.value) !in old(runs)
                ==> Key(id, old(rows)[id].next.value) in started)
      ensures rows.Keys == old(rows).Keys
      ensures forall id :: id in rows ==>
                && rows[id].enabled == old(rows)[id].enabled && rows[id].plan == old(rows)[id].plan
                && (!old(rows)[id].enabled || old(rows)[id].next.None? ==> rows[id] == old(rows)[id])
      ensures (forall id :: id in old(rows) ==> Forward(old(rows)[id].plan)) ==> Increasing(started)
      ensures (forall id :: id in old(rows) ==> Storable(old(rows)[id].plan)) && readings != [] ==>
                forall id :: id in rows && rows[id].enabled && rows[id].next.Some? ==>
                  rows[id].next.value * SECOND > readings[|readings| - 1].now
      ensures Legal(old(View()), trace) && Run(old(View()), trace) == View()
      ensures forall a :: a in trace ==> !a.Create? && !a.Delete?
    {
      hide AdvancesTo, Run, Legal, Storable, Forward, Distinct, Increasing, NotPlannedBefore,
           Ticked, Launches, Due, Scheduler.View, SoFar;
      ghost var start := rows;
      ghost var storable := forall id :: id in start ==> Storable(start[id].plan);
      ghost var forward := forall id :: id in start ==> Forward(start[id].plan);
      started, trace := [], [];
      EmptyTrace(View());
      NothingStarted();
      NothingSoFar(start, runs, readings);
      for n := 0 to |readings|
        invariant SoFar(start, old(runs), readings, n, rows, started)
        invariant runs == (old(runs) + set k | k in started) && launched == old(launched) + started
        invariant Distinct(started)
        invariant forward ==> Increasing(started) && NotPlannedBefore(started, rows)
        invariant storable && n > 0 ==> forall id :: id in rows ==> !Due(rows[id], readings[n - 1].now)
        invariant Legal(old(View()), trace) && Run(old(View()), trace) == View()
        invariant forall a :: a in trace ==> !a.Create? && !a.Delete?
      {
        ghost var listing, used := rows, runs;
        PlansSoFar(start, old(runs), readings, n, listing, started);
        ghost var more, steps := Tick(readings[n].now, readings[n].order, readings[n].busy);
        TickMeans(listing, rows, readings[n], used, more);
        RunConcat(old(View()), trace, steps);
        DistinctAppend(started, more);
        SoFarStep(start, old(runs), readings, n, listing, rows, started, more);
        if forward { TickKeepsOrder(listing, rows, started, more, readings[n]); }
        if storable { TickLeavesNoneDue(listing, rows, readings[n].now); }
        started, trace := started + more, trace + steps;
      }
      PollMeans(start, readings, old(runs), rows, started);
      if storable && readings != [] { NoneDue(rows, readings[|readings| - 1].now); }
    }
  }

  // ----- what a poll has done so far -----------------------------------------

  /** A row after the first `n` readings. */
  ghost predicate RowSoFar(first: Row, readings: seq<Reading>, n: nat, row: Row)
    requires n <= |readings|
  {
    && row.enabled == first.enabled && row.plan == first.plan
    && (!first.enabled || first.next.None? ==> row == first)
    && (row.next == first.next
        || exists i :: 0 <= i < n && AdvancesTo(first.plan, readings[i].now, row.next))
    && (first.next.Some? && (forall i :: 0 <= i < n ==> readings[i].now < first.next.value * SECOND) ==> row == first)
  }

  /** A key launched by one of the first `n` readings. */
  ghost predicate KeySoFar(first: Row, k: Key, readings: seq<Reading>, n: nat)
    requires n <= |readings|
  {
    && first.enabled
    && (exists i :: 0 <= i < n && k.planned * SECOND <= readings[i].now)
    && (first.next == Some(k.planned)
        || exists i :: 0 <= i < n && AdvancesTo(first.plan, readings[i].now, Some(k.planned)))
  }

  /** Reading `i` is the first at which the row as it was is due, and its lease is free. */
  predicate FirstDue(first: Row, id: int, readings: seq<Reading>, i: nat, used: set<Key>): (b: bool)
    requires i < |readings|
    ensures b ==> first.next.Some?
  {
    && first.enabled && first.next.Some? && first.next.value * SECOND <= readings[i].now
    && (forall j :: 0 <= j < i ==> readings[j].now < first.next.value * SECOND)
    && id !in readings[i].busy && Key(id, first.next.value) !in used
  }

  /** What the first `n` readings have done. */
  ghost predicate SoFar(start: map<int, Row>, used: set<Key>, readings: seq<Reading>, n: nat,
                        rows: map<int, Row>, started: seq<Key>)
    requires n <= |readings|
  {
    && rows.Keys == start.Keys && (forall id :: id in rows ==> RowSoFar(start[id], readings, n, rows[id]))
    && (forall k :: k in started ==> k !in used && k.id in start && KeySoFar(start[k.id], k, readings, n))
    && (forall id, i: nat :: id in start && i < n && FirstDue(start[id], id, readings, i, used) ==>
          Key(id, start[id].next.value) in started)
  }

  lemma NothingSoFar(start: map<int, Row>, used: set<Key>, readings: seq<Reading>)
    ensures SoFar(start, used, readings, 0, start, [])
  {
  }

  lemma SoFarStep(start: map<int, Row>, used: set<Key>, readings: seq<Reading>, n: nat,
                  listing: map<int, Row>, rows: map<int, Row>, started: seq<Key>, more: seq<Key>)
    requires n < |readings| && SoFar(start, used, readings, n, listing, started) && rows.Keys == listing.Keys
    requires forall id :: id in rows ==> Ticked(listing[id], rows[id], readings[n].now)
    requires forall k :: k in more <==>
               k.id in listing && Launches(listing[k.id], k, readings[n].now, readings[n].busy)
               && k !in used + set s | s in started
    ensures SoFar(start, used, readings, n + 1, rows, started + more)
  {
    hide Ticked, Launches, RowSoFar, KeySoFar, FirstDue;
    forall id | id in rows ensures RowSoFar(start[id], readings, n + 1, rows[id]) {
      RowStep(start[id], readings, n, listing[id], rows[id]);
    }
    forall k | k in started + more ensures KeySoFar(start[k.id], k, readings, n + 1) {
      KeyStep(start[k.id], k, readings, n, listing[k.id]);
    }
    forall id, i: nat | id in start && i <= n && FirstDue(start[id], id, readings, i, used)
      ensures Key(id, start[id].next.value) in started + more
    {
      if i == n { DueFirst(start[id], id, readings, n, used, listing[id]); }
    }
  }

  lemma PlansSoFar(start: map<int, Row>, used: set<Key>, readings: seq<Reading>, n: nat,
                   rows: map<int, Row>, started: seq<Key>)
    requires n <= |readings| && SoFar(start, used, readings, n, rows, started)
    ensures rows.Keys == start.Keys && forall id :: id in rows ==> rows[id].plan == start[id].plan
    ensures forall k :: k in started ==> k !in used
  {
    hide AdvancesTo, KeySoFar, FirstDue;
  }

  lemma NoneDue(rows: map<int, Row>, now: Instant)
    requires forall id :: id in rows ==> !Due(rows[id], now)
    ensures forall id :: id in rows && rows[id].enabled && rows[id].next.Some? ==> rows[id].next.value * SECOND > now
  {
  }

  /** A tick in the terms of `Ticked` and `Launches`. */
  lemma TickMeans(listing: map<int, Row>, rows: map<int, Row>, r: Reading, used: set<Key>, more: seq<Key>)
    requires rows.Keys == listing.Keys
    requires forall id :: id in rows ==>
               var row := listing[id];
               if row.enabled && row.next.Some? && row.next.value * SECOND <= r.now
               then AdvancesTo(row.plan, r.now, rows[id].next) && rows[id] == row.(next := rows[id].next)
               else rows[id] == row
    requires forall k :: k in more <==>
               && k.id in listing && listing[k.id].enabled && listing[k.id].next == Some(k.planned)
               && k.planned * SECOND <= r.now && k.id !in r.busy && k !in used
    ensures forall id :: id in rows ==> Ticked(listing[id], rows[id], r.now)
    ensures forall k :: k in more <==> k.id in listing && Launches(listing[k.id], k, r.now, r.busy) && k !in used
  {
    hide AdvancesTo;
  }

  lemma RowStep(first: Row, readings: seq<Reading>, n: nat, before: Row, after: Row)
    requires n < |readings| && RowSoFar(first, readings, n, before) && Ticked(before, after, readings[n].now)
    ensures RowSoFar(first, readings, n + 1, after)
  {
    hide AdvancesTo;
  }

  lemma KeyStep(first: Row, k: Key, readings: seq<Reading>, n: nat, before: Row)
    requires n < |readings| && RowSoFar(first, readings, n, before)
    requires KeySoFar(first, k, readings, n) || Launches(before, k, readings[n].now, readings[n].busy)
    ensures KeySoFar(first, k, readings, n + 1)
  {
    hide AdvancesTo;
  }

  lemma DueFirst(first: Row, id: int, readings: seq<Reading>, n: nat, used: set<Key>, before: Row)
    requires n < |readings| && RowSoFar(first, readings, n, before) && FirstDue(first, id, readings, n, used)
    ensures Launches(before, Key(id, first.next.value), readings[n].now, readings[n].busy)
    ensures Key(id, first.next.value) !in used
  {
    hide AdvancesTo;
  }

  /** All readings done, in full. */
  lemma PollMeans(start: map<int, Row>, readings: seq<Reading>, used: set<Key>, rows: map<int, Row>, started: seq<Key>)
    requires SoFar(start, used, readings, |readings|, rows, started)
    ensures rows.Keys == start.Keys && forall k :: k in started ==> k !in used
    ensures forall k :: k in started ==>
              && k.id in start && start[k.id].enabled
              && (exists i :: 0 <= i < |readings| && k.planned * SECOND <= readings[i].now)
              && (start[k.id].next == Some(k.planned)
                  || exists i :: 0 <= i < |readings| && AdvancesTo(start[k.id].plan, readings[i].now, Some(k.planned)))
    ensures forall id, i :: (
              && id in start && 0 <= i < |readings|
              && start[id].enabled && start[id].next.Some? && start[id].next.value * SECOND <= readings[i].now
              && (forall j :: 0 <= j < i ==> readings[j].now < start[id].next.value * SECOND)
              && id !in readings[i].busy && Key(id, start[id].next.value) !in used
              ==> Key(id, start[id].next.value) in started)
    ensures forall id :: id in rows ==>
              && rows[id].enabled == start[id].enabled && rows[id].plan == start[id].plan
              && (!start[id].enabled || start[id].next.None? ==> rows[id] == start[id])
  {
    hide AdvancesTo;
    forall id, i | && id in start && 0 <= i < |readings|
                   && start[id].enabled && start[id].next.Some?
                   && start[id].next.value * SECOND <= readings[i].now
                   && (forall j :: 0 <= j < i ==> readings[j].now < start[id].next.value * SECOND)
                   && id !in readings[i].busy && Key(id, start[id].next.value) !in used
      ensures Key(id, start[id].next.value) in started
    {
      assert FirstDue(start[id], id, readings, i, used);
    }
  }

  lemma NothingStarted()
    ensures Distinct([]) && Increasing([]) && forall rows :: NotPlannedBefore([], rows)
  {
  }

  lemma DistinctAppend(started: seq<Key>, more: seq<Key>)
    requires Distinct(started) && Distinct(more) && forall k :: k in more ==> k !in started
    ensures Distinct(started + more)
  {
    forall i, j | 0 <= i < |started| <= j < |started + more| ensures (started + more)[i] != (started + more)[j] {
      assert started[i] in started && more[j - |started|] in more;
    }
  }

  /** Of the rows done so far, exactly the ones up for launch whose key was not used
      have been started, and their keys are used now. */
  ghost predicate StartsExactly(listing: map<int, Row>, done: seq<int>, now: Instant, busy: set<int>,
                                used: set<Key>, started: seq<Key>, runs: set<Key>) {
    && Distinct(started)
    && (forall k :: k in started <==>
          k.id in listing && k.id in done && Launches(listing[k.id], k, now, busy) && k !in used)
    && runs == used + set k | k in started
  }

  lemma StartsNothing(listing: map<int, Row>, now: Instant, busy: set<int>, used: set<Key>)
    ensures StartsExactly(listing, [], now, busy, used, [], used)
  {
  }

  /** One row more. */
  lemma StartsOne(listing: map<int, Row>, done: seq<int>, id: int, now: Instant, busy: set<int>,
                  used: set<Key>, started: seq<Key>, runs: set<Key>)
    requires StartsExactly(listing, done, now, busy, used, started, runs) && id in listing && id !in done
    ensures var more := done + [id];
            if !Due(listing[id], now) then StartsExactly(listing, more, now, busy, used, started, runs)
            else
              var k := Key(id, listing[id].next.value);
              if id !in busy && k !in runs
              then StartsExactly(listing, more, now, busy, used, started + [k], runs + {k})
              else StartsExactly(listing, more, now, busy, used, started, runs + {})
  {
    assert runs + {} == runs;
    if Due(listing[id], now) {
      var k := Key(id, listing[id].next.value);
      assert k !in started;
      hide Due;
      assert Distinct([k]);
      if id !in busy && k !in runs { DistinctAppend(started, [k]); }
      hide Distinct;
    }
  }

  lemma StartsAll(listing: map<int, Row>, order: seq<int>, now: Instant, busy: set<int>,
                  used: set<Key>, started: seq<Key>, runs: set<Key>)
    requires StartsExactly(listing, order, now, busy, used, started, runs) && Lists(order, listing.Keys)
    ensures Distinct(started) && runs == used + set k | k in started
    ensures forall k :: k in started <==>
              k.id in listing && Launches(listing[k.id], k, now, busy) && k !in used
  {
    hide Distinct, Launches;
  }

  lemma OneKeyEach(keys: seq<Key>, next: map<int, Option<int>>)
    requires Distinct(keys) && forall k :: k in keys ==> k.id in next && next[k.id] == Some(k.planned)
    ensures forall i, j :: 0 <= i < j < |keys| ==> keys[i].id != keys[j].id
  {
    forall i, j | 0 <= i < j < |keys| ensures keys[i].id != keys[j].id {
      assert keys[i] in keys && keys[j] in keys;
    }
  }

  /** Launching each schedule's planned time, once, after the times launched before. */
  lemma IncreasingAppend(started: seq<Key>, more: seq<Key>, next: map<int, Option<int>>)
    requires Increasing(started) && Distinct(more) && forall k :: k in more ==> k !in started
    requires forall k :: k in more ==> k.id in next && next[k.id] == Some(k.planned)
    requires forall k :: k in started && k.id in next && next[k.id].Some? ==> k.planned <= next[k.id].value
    ensures Increasing(started + more)
  {
    OneKeyEach(more, next);
    var all := started + more;
    forall i, j | 0 <= i < j < |all| && all[i].id == all[j].id ensures all[i].planned < all[j].planned {
      if i < |started| <= j { assert all[i] in started && all[j] in more; }
    }
  }

  /** What a tick launches comes after what was launched before, and what it plans is
      not before any of it. */
  lemma TickKeepsOrder(listing: map<int, Row>, rows: map<int, Row>, started: seq<Key>, more: seq<Key>, r: Reading)
    requires rows.Keys == listing.Keys && forall id :: id in rows ==> Ticked(listing[id], rows[id], r.now)
    requires forall id :: id in listing ==> Forward(listing[id].plan)
    requires Increasing(started) && Distinct(more) && forall k :: k in more ==> k !in started
    requires forall k :: k in more ==> k.id in listing && Launches(listing[k.id], k, r.now, r.busy)
    requires NotPlannedBefore(started, listing)
    ensures Increasing(started + more) && NotPlannedBefore(started + more, rows)
  {
    hide AdvancesTo, Forward, Increasing, Distinct;
    IncreasingAppend(started, more, map id | id in listing :: listing[id].next);
    forall id | id in rows && rows[id].next.Some? && Due(listing[id], r.now)
      ensures listing[id].next.value <= rows[id].next.value
    {
      AdvancedIsNotEarlier(listing[id].plan, r.now, rows[id].next);
    }
  }

  lemma TickLeavesNoneDue(listing: map<int, Row>, rows: map<int, Row>, now: Instant)
    requires rows.Keys == listing.Keys && forall id :: id in rows ==> Ticked(listing[id], rows[id], now)
    requires forall id :: id in listing ==> Storable(listing[id].plan)
    ensures forall id :: id in rows ==> !Due(rows[id], now)
  {
    hide AdvancesTo, Storable;
    forall id | id in rows && rows[id].next.Some? && Due(listing[id], now) ensures rows[id].next.value * SECOND > now {
      AdvancedIsLater(listing[id].plan, now, rows[id].next);
    }
  }

  /** With an interval that wraps below zero a schedule is launched for a time, and then
      for an earlier one, by two ticks at one reading of the clock. */
  method LaunchBackwards(plan: Plan) returns (scheduler: Scheduler)
    requires !Forward(plan)
    ensures !Increasing(scheduler.launched)
  {
    scheduler := new Scheduler;
    scheduler.rows := map[1 := Row(true, plan, Some(0))];
    scheduler.runs, scheduler.launched := {}, [];
    hide AdvancesTo, Increasing, Distinct, Scheduler.View, Forward;
    ghost var first, trace := scheduler.Tick(0, [1], {});
    assert Key(1, 0) in first;
    WrapsBelowZero(plan, scheduler.rows[1].next);
    ghost var back := Key(1, scheduler.rows[1].next.value);
    ghost var second, rest := scheduler.Tick(0, [1], {});
    assert back in second;
    NotIncreasing(first, second, Key(1, 0), back);
  }

  lemma WrapsBelowZero(plan: Plan, next: Option<int>)
    requires !Forward(plan) && AdvancesTo(plan, 0, next)
    ensures next.Some? && next.value < 0
  {
    hide Forward, IsNextRun;
    var r :| IsNextRun(plan, 0, r)
             && next == if r.Ok? && r.value.Some? then Some(Stored(r.value.value)) else None;
    NotForwardGoesBack(plan, r);
  }

  lemma NotIncreasing(first: seq<Key>, second: seq<Key>, k: Key, back: Key)
    requires k in first && back in second && k.id == back.id && back.planned < k.planned
    ensures !Increasing([] + first + second)
  {
    var all := [] + first + second;
    var i :| 0 <= i < |first| && first[i] == k;
    var j :| 0 <= j < |second| && second[j] == back;
    assert all[i] == k && all[|first| + j] == back;
  }

  lemma EmptyTrace(s: Table)
    ensures Legal(s, []) && Run(s, []) == s
  {
  }

  lemma TickRowTrace(s: Table, t: Table, id: int, planned: int, busy: bool, next: Option<int>, trace: seq<Action>)
    requires id in s.rows && s.holding == map[]
    requires var won := Wins(s, Key(id, planned), busy);
             && trace == [Lease(0, Key(id, planned), busy)] + (if won then [Launch(0)] else []) + [Write(id, next)]
             && t == Table(s.rows[id := next], s.runs + if won then {Key(id, planned)} else {},
                           map[], s.launched + if won then [Key(id, planned)] else [])
    ensures Legal(s, trace) && Run(s, trace) == t
  {
    var won := Wins(s, Key(id, planned), busy);
    var write := Write(id, next);
    var s1 := Apply(s, trace[0]);
    if won {
      var s2 := Apply(s1, Launch(0));
      assert s1.holding - {0} == map[];
      OneAction(s2, write, []);
      OneAction(s1, Launch(0), [write]);
      OneAction(s, trace[0], [Launch(0), write]);
      assert trace == [trace[0]] + [Launch(0), write];
    } else {
      assert s.runs + {} == s.runs && s.launched + [] == s.launched;
      OneAction(s1, write, []);
      OneAction(s, trace[0], [write]);
      assert trace == [trace[0]] + [write];
    }
  }
}
