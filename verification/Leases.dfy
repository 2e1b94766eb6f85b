/** Duplicate-run protection: several tickers, and everything else that writes to
    the two schedule tables, interleaved one SQL statement at a time. */
module Leases {
  import opened Text

  /** A lease key: the schedule and the planned second. */
  datatype Key = Key(id: int, planned: int)

  datatype Table = Table(
    rows: map<int, Option<int>>,  // schedules: id to next_run_at
    runs: set<Key>,               // schedule_runs: the unique lease keys
    holding: map<int, Key>,       // process to the lease it won and has not launched yet
    launched: seq<Key>)           // runs started by tickers, in order

  /** One statement of one process.  A ticker works from an old listing, so the key
      it leases and the next run it writes need not agree with the row any more. */
  datatype Action =
    | Create(id: int, next: Option<int>)
    | Delete(id: int)                           // cascades to the schedule's runs
    | Write(id: int, next: Option<int>)         // advance or edit
    | Record(key: Key)                          // recordRun: INSERT OR IGNORE
    | Lease(process: int, key: Key, busy: bool) // busy: the statement failed for another reason
    | Launch(process: int)

  predicate Enabled(s: Table, a: Action) {
    match a
    case Create(id, _) => id !in s.rows
    case Launch(process) => process in s.holding
    case Lease(process, _, _) => process !in s.holding
    case _ => true
  }

  /** The insert succeeds for an existing schedule and an unused key. */
  predicate Wins(s: Table, key: Key, busy: bool) {
    !busy && key.id in s.rows && key !in s.runs
  }

  function Apply(s: Table, a: Action): Table
    requires Enabled(s, a)
  {
    match a
    case Create(id, next) => s.(rows := s.rows[id := next])
    case Delete(id) =>
      if id in s.rows then
        s.(rows := s.rows - {id}, runs := set k | k in s.runs && k.id != id)
      else s
    case Write(id, next) => if id in s.rows then s.(rows := s.rows[id := next]) else s
    case Record(key) => if key.id in s.rows then s.(runs := s.runs + {key}) else s
    case Lease(process, key, busy) =>
      if Wins(s, key, busy) then s.(runs := s.runs + {key}, holding := s.holding[process := key]) else s
    case Launch(process) =>
      s.(holding := s.holding - {process}, launched := s.launched + [s.holding[process]])
  }

  /** A ticker gets the lease of a planned time exactly if the schedule exists, no lease or
      record of that time is there and the statement works; whoever gets it keeps others
      from it. */
  lemma LeaseOutcome(s: Table, p: int, q: int, key: Key, busy: bool)
    requires p !in s.holding && q !in s.holding && p != q
    ensures var t := Apply(s, Lease(p, key, busy));
            if key.id in s.rows && key !in s.runs && !busy
            then t == s.(runs := s.runs + {key}, holding := s.holding[p := key])
                 && Apply(t, Lease(q, key, false)) == t
            else t == s
  {
  }

  /** A recorded run of an existing schedule is not launched by a ticker; deleting the
      schedule, and nothing else, removes its leases and records. */
  lemma RecordOutcome(s: Table, p: int, key: Key, id: int)
    requires p !in s.holding && key.id in s.rows
    ensures var t := Apply(s, Record(key)); t == s.(runs := s.runs + {key}) && Apply(t, Lease(p, key, false)) == t
    ensures id in s.rows ==>
              var t := Apply(s, Delete(id));
              t.rows == s.rows - {id} && t.launched == s.launched && t.holding == s.holding
              && forall k :: k in t.runs <==> k in s.runs && k.id != id
    ensures id !in s.rows ==> Apply(s, Delete(id)) == s
  {
  }

  predicate Legal(s: Table, trace: seq<Action>)
    decreases |trace|
  {
    trace == [] || (Enabled(s, trace[0]) && Legal(Apply(s, trace[0]), trace[1..]))
  }

  function Run(s: Table, trace: seq<Action>): Table
    requires Legal(s, trace)
    decreases |trace|
  {
    if trace == [] then s else Run(Apply(s, trace[0]), trace[1..])
  }

  lemma OneAction(s: Table, a: Action, rest: seq<Action>)
    requires Enabled(s, a) && Legal(Apply(s, a), rest)
    ensures Legal(s, [a] + rest) && Run(s, [a] + rest) == Run(Apply(s, a), rest)
  {
    hide Enabled, Apply;
    assert ([a] + rest)[1..] == rest;
  }

  lemma {:induction false} RunConcat(s: Table, t0: seq<Action>, t1: seq<Action>)
    requires Legal(s, t0) && Legal(Run(s, t0), t1)
    ensures Legal(s, t0 + t1) && Run(s, t0 + t1) == Run(Run(s, t0), t1)
    decreases |t0|
  {
    if t0 == [] {
      assert t0 + t1 == t1;
    } else {
      RunConcat(Apply(s, t0[0]), t0[1..], t1);
      assert (t0 + t1)[1..] == t0[1..] + t1;
    }
  }

  // ----- at most once --------------------------------------------------------

  predicate Distinct(keys: seq<Key>) {
    forall i, j :: 0 <= i < j < |keys| ==> keys[i] != keys[j]
  }

  /** The key has been launched, or some process is about to launch it. */
  predicate Owed(s: Table, key: Key) {
    key in s.launched || exists p :: p in s.holding && s.holding[p] == key
  }

  /** Nothing was launched twice or is about to be, and every owed key whose schedule
      exists still has its lease. */
  ghost predicate Safe(s: Table) {
    && Distinct(s.launched)
    && (forall p :: p in s.holding ==> s.holding[p] !in s.launched)
    && (forall p, q :: p in s.holding && q in s.holding && p != q ==> s.holding[p] != s.holding[q])
    && (forall k :: Owed(s, k) && k.id in s.rows ==> k in s.runs)
  }

  /** The foreign key of schedule_runs. */
  predicate Linked(s: Table) {
    forall k :: k in s.runs ==> k.id in s.rows
  }

  /** A schedule is created under an id of which nothing is owed. */
  ghost predicate CarefulStep(s: Table, a: Action) {
    a.Create? ==> forall k :: Owed(s, k) ==> k.id != a.id
  }

  ghost predicate Careful(s: Table, trace: seq<Action>)
    requires Legal(s, trace)
    decreases |trace|
  {
    trace == [] || (CarefulStep(s, trace[0]) && Careful(Apply(s, trace[0]), trace[1..]))
  }

  lemma InvStep(s: Table, a: Action)
    requires Safe(s) && Linked(s) && Enabled(s, a)
    ensures Linked(Apply(s, a))
    ensures Safe(Apply(s, a)) <==> CarefulStep(s, a)
  {
    var t := Apply(s, a);
    match a
    case Create(id, _) =>
      assert forall k :: Owed(t, k) <==> Owed(s, k);
    case Lease(process, key, busy) =>
      if Wins(s, key, busy) { LeaseKeepsSafe(s, process, key); }
    case Launch(process) => LaunchKeepsSafe(s, process);
    case _ =>
      assert forall k :: Owed(t, k) <==> Owed(s, k);
  }

  lemma LeaseKeepsSafe(s: Table, process: int, key: Key)
    requires Safe(s) && process !in s.holding && Wins(s, key, false)
    ensures Safe(Apply(s, Lease(process, key, false)))
  {
    var t := Apply(s, Lease(process, key, false));
    assert !Owed(s, key);
    forall k | Owed(t, k) ensures k == key || Owed(s, k) {
      if k !in t.launched {
        var p :| p in t.holding && t.holding[p] == k;
        assert p == process || s.holding[p] == k;
      }
    }
  }

  lemma LaunchKeepsSafe(s: Table, process: int)
    requires Safe(s) && process in s.holding
    ensures Safe(Apply(s, Launch(process)))
  {
    var t := Apply(s, Launch(process));
    forall k | Owed(t, k) ensures Owed(s, k) {
      if k !in t.launched {
        var p :| p in t.holding && t.holding[p] == k;
        assert s.holding[p] == k;
      }
    }
  }

  lemma {:induction false} InvRun(s: Table, trace: seq<Action>)
    requires Safe(s) && Linked(s) && Legal(s, trace) && Careful(s, trace)
    ensures Safe(Run(s, trace)) && Linked(Run(s, trace))
    decreases |trace|
  {
    hide Safe, Linked, CarefulStep;
    if trace != [] {
      InvStep(s, trace[0]);
      InvRun(Apply(s, trace[0]), trace[1..]);
    }
  }

  /** Whatever the interleaving of tickers, edits and recorded runs, no planned time of
      a schedule is launched twice, provided no schedule is created under an id of
      which a run was launched or is about to be. */
  lemma AtMostOnce(s: Table, trace: seq<Action>)
    requires s.holding == map[] && s.launched == [] && Linked(s)
    requires Legal(s, trace) && Careful(s, trace)
    ensures Distinct(Run(s, trace).launched)
  {
    assert forall k :: !Owed(s, k);
    InvRun(s, trace);
    hide Careful, Run, Legal;
  }

  // ----- exactly when --------------------------------------------------------

  predicate NoCreate(trace: seq<Action>)
    decreases |trace|
  {
    trace == [] || (!trace[0].Create? && NoCreate(trace[1..]))
  }

  /** Whatever happens from here short of creating a schedule, nothing is launched twice. */
  ghost predicate OnceFrom(s: Table) {
    forall trace :: Legal(s, trace) && NoCreate(trace) ==> Distinct(Run(s, trace).launched)
  }

  lemma {:induction false} NoCreateIsCareful(s: Table, trace: seq<Action>)
    requires Legal(s, trace) && NoCreate(trace)
    ensures Careful(s, trace)
    decreases |trace|
  {
    if trace != [] { NoCreateIsCareful(Apply(s, trace[0]), trace[1..]); }
  }

  lemma Twice(keys: seq<Key>, k: Key)
    requires k in keys
    ensures !Distinct(keys + [k])
  {
    var i :| 0 <= i < |keys| && keys[i] == k;
    assert (keys + [k])[i] == (keys + [k])[|keys|];
  }

  /** Some process is free: there are fewer leases held than process numbers. */
  lemma {:induction false} FreeProcess(busy: set<int>, n: nat) returns (p: int)
    requires |busy| <= n
    ensures p !in busy && 0 <= p <= n
  {
    p := n;
    if n in busy { p := FreeProcess(busy - {n}, n - 1); }
  }

  /** A process launches what it holds. */
  lemma LaunchRun(s: Table, p: int)
    requires p in s.holding
    ensures Legal(s, [Launch(p)]) && NoCreate([Launch(p)])
    ensures Run(s, [Launch(p)]) == s.(holding := s.holding - {p}, launched := s.launched + [s.holding[p]])
  {
    OneAction(s, Launch(p), []);
    assert [Launch(p)] + [] == [Launch(p)];
  }

  /** A launched key whose schedule exists and whose lease is gone is launched again. */
  lemma LeasedAgain(s: Table, k: Key) returns (trace: seq<Action>)
    requires k in s.launched && k.id in s.rows && k !in s.runs
    ensures Legal(s, trace) && NoCreate(trace) && !Distinct(Run(s, trace).launched)
  {
    var p := FreeProcess(s.holding.Keys, |s.holding.Keys|);
    var t := Apply(s, Lease(p, k, false));
    LaunchRun(t, p);
    OneAction(s, Lease(p, k, false), [Launch(p)]);
    trace := [Lease(p, k, false)] + [Launch(p)];
    assert trace[1..] == [Launch(p)];
    Twice(s.launched, k);
  }

  /** First launching what a process holds. */
  lemma AfterLaunch(s: Table, p: int, rest: seq<Action>)
    requires p in s.holding && Legal(Apply(s, Launch(p)), rest) && NoCreate(rest)
    ensures Legal(s, [Launch(p)] + rest) && NoCreate([Launch(p)] + rest)
    ensures Run(s, [Launch(p)] + rest) == Run(Apply(s, Launch(p)), rest)
  {
    OneAction(s, Launch(p), rest);
    assert ([Launch(p)] + rest)[1..] == rest;
  }

  lemma UnsafeLaunchesTwice(s: Table) returns (trace: seq<Action>)
    requires !Safe(s)
    ensures Legal(s, trace) && NoCreate(trace) && !Distinct(Run(s, trace).launched)
  {
    hide Legal, NoCreate, Run, Distinct;
    if !Distinct(s.launched) {
      trace := [];
      NothingHappens(s);
    } else if p :| p in s.holding && s.holding[p] in s.launched {
      LaunchRun(s, p);
      Twice(s.launched, s.holding[p]);
      trace := [Launch(p)];
    } else if p, q :| p in s.holding && q in s.holding && p != q && s.holding[p] == s.holding[q] {
      var t := Apply(s, Launch(p));
      LaunchRun(t, q);
      Twice(t.launched, s.holding[q]);
      AfterLaunch(s, p, [Launch(q)]);
      trace := [Launch(p)] + [Launch(q)];
    } else {
      var k :| Owed(s, k) && k.id in s.rows && k !in s.runs;
      if k in s.launched {
        trace := LeasedAgain(s, k);
      } else {
        var p :| p in s.holding && s.holding[p] == k;
        var rest := LeasedAgain(Apply(s, Launch(p)), k);
        AfterLaunch(s, p, rest);
        trace := [Launch(p)] + rest;
      }
    }
  }

  lemma NothingHappens(s: Table)
    ensures Legal(s, []) && NoCreate([]) && Run(s, []) == s
  {
  }

  /** Without new schedules nothing is launched twice from a table if and only if it is
      safe: no held key was launched or is held twice, and every launched or held key
      of an existing schedule still has its lease. */
  lemma OnceFromIff(s: Table)
    requires Linked(s)
    ensures OnceFrom(s) <==> Safe(s)
  {
    if Safe(s) {
      forall trace | Legal(s, trace) && NoCreate(trace) ensures Distinct(Run(s, trace).launched) {
        NoCreateIsCareful(s, trace);
        InvRun(s, trace);
      }
    } else {
      var trace := UnsafeLaunchesTwice(s);
    }
  }

  /** At no point of the run is a second launch of some key ahead. */
  ghost predicate OnceAlong(s: Table, trace: seq<Action>)
    requires Legal(s, trace)
    decreases |trace|
  {
    OnceFrom(s) && (trace == [] || OnceAlong(Apply(s, trace[0]), trace[1..]))
  }

  /** Over any run the duplicate-run protection is intact throughout if and only if
      every schedule created on it has an id of which no run was launched or is about
      to be.  One careless creation is enough for a second launch. */
  lemma {:induction false} AtMostOnceIff(s: Table, trace: seq<Action>)
    requires Safe(s) && Linked(s) && Legal(s, trace)
    ensures OnceAlong(s, trace) <==> Careful(s, trace)
    decreases |trace|
  {
    hide Safe, Linked, CarefulStep, OnceFrom;
    OnceFromIff(s);
    if trace != [] {
      InvStep(s, trace[0]);
      var t := Apply(s, trace[0]);
      OnceFromIff(t);
      if CarefulStep(s, trace[0]) { AtMostOnceIff(t, trace[1..]); }
    }
  }

  /** Deleting schedule 1 deletes its lease; a ticker that listed the old schedule then
      leases the new one's first run. */
  lemma ReusedIdLaunchesTwice()
    ensures exists s: Table, trace ::
              && s.holding == map[] && s.launched == [] && Linked(s) && Legal(s, trace)
              && !Distinct(Run(s, trace).launched)
  {
    var k := Key(1, 60);
    var s := Table(map[1 := Some(60)], {}, map[], []);
    var s1 := Apply(s, Lease(0, k, false));
    var s2 := Apply(s1, Launch(0));
    var s3 := Apply(s2, Delete(1));
    var s4 := Apply(s3, Create(1, Some(120)));
    assert k in s4.launched && k !in s4.runs by { assert s4.launched[0] == k; }
    var rest := LeasedAgain(s4, k);
    OneAction(s3, Create(1, Some(120)), rest);
    OneAction(s2, Delete(1), [Create(1, Some(120))] + rest);
    OneAction(s1, Launch(0), [Delete(1)] + ([Create(1, Some(120))] + rest));
    OneAction(s, Lease(0, k, false), [Launch(0)] + ([Delete(1)] + ([Create(1, Some(120))] + rest)));
  }
}
