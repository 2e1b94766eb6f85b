/** The supervisor's run loop: start, exit, crash-loop protection, back-off. */
module Lifecycle {
  import opened Text

  datatype Policy = Never | OnFailure | Always | Other

  /** Times are in nanoseconds. */
  const SECOND := 1_000_000_000
  const WINDOW := 600 * SECOND

  /** A configuration as `New` leaves it. */
  datatype Config = Config(policy: Policy, delaySeconds: Int64, maxCrashLoop: Int64) {
    predicate Valid() { delaySeconds > 0 && maxCrashLoop > 0 }

    function Normalised(): (c: Config)
      ensures c.Valid() && (Valid() ==> c == this)
    {
      Config(policy, if delaySeconds <= 0 then 10 else delaySeconds, if maxCrashLoop <= 0 then 5 else maxCrashLoop)
    }

    /** The delay as configured, in nanoseconds. */
    function Base(): int { delaySeconds * SECOND }

    predicate Protected() { policy == OnFailure || policy == Always }
  }

  datatype State = Stopped | Starting | Running | Stopping | Restarting | Crashed

  /** Where the loop of `Run` stands. */
  datatype Mode =
    | Top                  // about to start the script
    | Launching(idle: bool)  // the lock is released for the launch; idle: nothing was up before
    | Child                // waiting for the child
    | Exited(verdict: State)   // the exit is recorded as this state, the restart not yet decided
    | Cleared              // a restart is due, the delay not yet chosen
    | Backoff(until: int)  // waiting before the restart
    | Done(error: bool)    // returned

  datatype Sup = Sup(
    cfg: Config, mode: Mode, state: State, stopIntent: bool, restartIntent: bool,
    restartCount: nat, crashTimes: seq<int>, now: int, cancelled: bool)

  /** The supervisor's own steps and what can happen between them. */
  datatype Event =
    | Clock(time: int)
    | Cancel                // systemd stops the unit
    | Begin                 // loop top, up to the launch
    | Launch(ok: bool)      // the launch worked, or startOnce returns an error
    | DoneLine              // the server reports that it is up
    | Stop | FlagRestart | ForceStop
    | Exit(code: int)       // wait returns
    | Judge                 // decide on a restart
    | Rest                  // choose the delay
    | Wake                  // the delay is over, or the context is

  predicate Enabled(s: Sup, e: Event) {
    match e
    case Clock(time) => s.now <= time
    case Begin => s.mode.Top?
    case Launch(_) => s.mode.Launching?
    case Exit(_) => s.mode.Child?
    case Judge => s.mode.Exited?
    case Rest => s.mode.Cleared?
    case Wake => s.mode.Backoff? && (s.cancelled || s.mode.until <= s.now)
    case _ => true
  }

  function Apply(s: Sup, e: Event): Sup
    requires Enabled(s, e)
  {
    match e
    case Clock(time) => s.(now := time)
    case Cancel => s.(cancelled := true)
    case Begin => AfterBegin(s)
    case Launch(ok) => s.(mode := Child, state := if ok && s.mode.idle then Starting else Crashed)
    case DoneLine => if s.state.Starting? then s.(state := Running) else s
    case Stop =>
      if s.state.Stopped? || s.state.Crashed? then s else s.(stopIntent := true, state := Stopping)
    case FlagRestart => if s.state.Running? || s.state.Starting? then s.(restartIntent := true) else s
    case ForceStop => s.(stopIntent := true)
    case Exit(code) => AfterExit(s, code)
    case Judge => AfterJudge(s)
    case Rest =>
      s.(restartCount := s.restartCount + 1,
         mode := Backoff(s.now + Delay(s.cfg, CountAfter(s.crashTimes, s.now - WINDOW))))
    case Wake => if s.cancelled then s.(mode := Done(false)) else s.(mode := Top)
  }

  function AfterBegin(s: Sup): Sup {
    if s.cancelled then s.(mode := Done(false))
    else if s.state.Running? || s.state.Starting? then s.(mode := Launching(false))
    else s.(mode := Launching(true), state := Starting)
  }

  function AfterExit(s: Sup, code: int): Sup {
    var verdict := Verdict(s, code);
    s.(mode := Exited(verdict), state := verdict, stopIntent := false, restartIntent := false,
       crashTimes := if verdict.Crashed? then s.crashTimes + [s.now] else s.crashTimes)
  }

  function Verdict(s: Sup, code: int): State {
    if s.restartIntent then Restarting
    else if s.stopIntent || s.cancelled || code == 0 then Stopped
    else Crashed
  }

  function AfterJudge(s: Sup): Sup
    requires s.mode.Exited?
  {
    if s.cancelled || s.mode.verdict.Stopped? then s.(mode := Done(false))
    else if s.mode.verdict.Crashed? && s.cfg.policy == Never then s.(mode := Done(false))
    else if s.mode.verdict.Crashed? && s.cfg.Protected()
            && CountAfter(s.crashTimes, s.now - WINDOW) >= s.cfg.maxCrashLoop
    then s.(mode := Done(true))
    else s.(mode := Cleared)
  }

  /** `recentCrashes`: how many crashes lie strictly after the cutoff. */
  function CountAfter(times: seq<int>, cutoff: int): (n: nat)
    ensures n <= |times|
  {
    if times == [] then 0
    else CountAfter(times[..|times| - 1], cutoff) + if times[|times| - 1] > cutoff then 1 else 0
  }

  function Pow2(n: nat): nat {
    if n == 0 then 1 else 2 * Pow2(n - 1)
  }

  /** Base delay, doubled for each recent crash after the first, four times at most, all
      on 64 bits. */
  function Delay(cfg: Config, recent: nat): int {
    Wrap64(cfg.Base() * Pow2(Doublings(recent)))
  }

  function Doublings(recent: nat): nat {
    if recent <= 1 then 0 else if recent >= 5 then 4 else recent - 1
  }

  /** Without settings the delay is ten seconds and the limit five crashes. */
  lemma Defaults(policy: Policy, delay: Int64, limit: Int64)
    requires delay <= 0 && limit <= 0
    ensures Config(policy, delay, limit).Normalised() == Config(policy, 10, 5)
  {
  }

  // ----- the fields and their critical sections ------------------------------

  class Supervisor {
    const cfg: Config
    var state: State
    var stopIntent: bool
    var restartIntent: bool
    var restartCount: nat
    var crashTimes: seq<int>
    ghost var mode: Mode
    ghost var now: int
    ghost var cancelled: bool

    ghost function View(): Sup
      reads this
    {
      Sup(cfg, mode, state, stopIntent, restartIntent, restartCount, crashTimes, now, cancelled)
    }

    constructor (given: Config, ghost time: int)
      ensures View() == Initial(given.Normalised(), time)
      ensures state == Stopped && !stopIntent && !restartIntent && restartCount == 0 && crashTimes == []
    {
      cfg := given.Normalised();
      state, stopIntent, restartIntent, restartCount, crashTimes := Stopped, false, false, 0, [];
      mode, now, cancelled := Top, time, false;
    }

    /** The loop top and `startOnce` up to the launch, which runs without the lock. */
    method BeginStart(ctxDone: bool) returns (idle: bool)
      requires mode.Top? && ctxDone == cancelled
      modifies this
      ensures View() == Apply(old(View()), Begin)
      ensures if ctxDone then mode == Done(false) && state == old(state) else mode == Launching(idle)
      ensures !ctxDone ==> (idle <==> !old(state).Running? && !old(state).Starting?)
                           && state == if idle then Starting else old(state)
    {
      idle := false;
      if ctxDone {
        mode := Done(false);
        return;
      }
      if !state.Running? && !state.Starting? {
        idle := true;
        state := Starting;
      }
      mode := Launching(idle);
    }

    /** The end of `startOnce`, and the loop's answer to its error.  A stop noted
        during the launch stays noted, but the state it set is overwritten. */
    method FinishStart(idle: bool, ok: bool)
      requires mode == Launching(idle)
      modifies this
      ensures View() == Apply(old(View()), Launch(ok))
      ensures mode == Child && stopIntent == old(stopIntent) && (state.Starting? <==> idle && ok)
    {
      state := if idle && ok then Starting else Crashed;
      mode := Child;
    }

    method SeeDoneLine()
      modifies this`state
      ensures View() == Apply(old(View()), DoneLine)
      ensures state == if old(state).Starting? then Running else old(state)
    {
      if state.Starting? { state := Running; }
    }

    method RequestStop()
      modifies this`state, this`stopIntent
      ensures View() == Apply(old(View()), Stop)
      ensures old(state).Stopped? || old(state).Crashed? ==> state == old(state) && stopIntent == old(stopIntent)
      ensures !old(state).Stopped? && !old(state).Crashed? ==> state == Stopping && stopIntent
    {
      if state.Stopped? || state.Crashed? { return; }
      stopIntent := true;
      state := Stopping;
    }

    method RequestRestart() returns (ok: bool)
      modifies this`restartIntent
      ensures View() == Apply(old(View()), FlagRestart)
      ensures ok <==> state.Running? || state.Starting?
      ensures restartIntent <==> ok || old(restartIntent)
    {
      if !state.Running? && !state.Starting? { return false; }
      restartIntent := true;
      ok := true;
    }

    method RequestForceStop()
      modifies this`stopIntent
      ensures View() == Apply(old(View()), ForceStop) && stopIntent
    {
      stopIntent := true;
    }

    method RecordExit(code: int, time: int, ctxDone: bool) returns (verdict: State)
      requires mode.Child? && time == now && ctxDone == cancelled
      modifies this
      ensures View() == Apply(old(View()), Exit(code)) && mode == Exited(verdict)
      ensures state == verdict && !stopIntent && !restartIntent
    {
      var stopReq, restartReq := stopIntent, restartIntent;
      stopIntent, restartIntent := false, false;
      if restartReq {
        state := Restarting;
      } else if stopReq || ctxDone {
        state := Stopped;
      } else if code == 0 {
        state := Stopped;
      } else {
        state := Crashed;
        crashTimes := crashTimes + [time];
      }
      verdict := state;
      mode := Exited(verdict);
    }

    method RecentCrashes(time: int) returns (n: nat)
      ensures n == CountAfter(crashTimes, time - WINDOW)
    {
      var cutoff := time - WINDOW;
      n := 0;
      for i := 0 to |crashTimes|
        invariant n == CountAfter(crashTimes[..i], cutoff)
      {
        assert crashTimes[..i + 1][..i] == crashTimes[..i];
        if crashTimes[i] > cutoff { n := n + 1; }
      }
      assert crashTimes[..|crashTimes|] == crashTimes;
    }

    /** The restart decision; `restart` is false when `Run` returns. */
    method DecideRestart(verdict: State, time: int, ctxDone: bool) returns (restart: bool, error: bool)
      requires mode == Exited(verdict) && time == now && ctxDone == cancelled
      modifies this`mode
      ensures View() == Apply(old(View()), Judge)
      ensures if restart then mode == Cleared else mode == Done(error)
    {
      restart, error := false, false;
      if ctxDone || verdict.Stopped? {
        mode := Done(false);
        return;
      }
      if verdict.Crashed? {
        if cfg.policy == Never {
          mode := Done(false);
          return;
        }
        if cfg.policy == OnFailure || cfg.policy == Always {
          var recent := RecentCrashes(time);
          if recent >= cfg.maxCrashLoop {
            mode := Done(true);
            error := true;
            return;
          }
        }
      }
      restart := true;
      mode := Cleared;
    }

    /** The delay before the restart, doubled in a loop. */
    method ChooseDelay(time: int) returns (delay: int)
      requires mode.Cleared? && time == now
      modifies this`mode, this`restartCount
      ensures View() == Apply(old(View()), Rest) && mode == Backoff(time + delay)
      ensures restartCount == old(restartCount) + 1
    {
      restartCount := restartCount + 1;
      delay := Wrap64(cfg.delaySeconds * SECOND);
      var recent := RecentCrashes(time);
      var i := 1;
      while i < recent && i < 5
        invariant 1 <= i <= 5 && (i <= recent || i == 1)
        invariant delay == Wrap64(cfg.Base() * Pow2(i - 1))
        invariant restartCount == old(restartCount) + 1 && mode == old(mode)
      {
        DoubleDelay(cfg.Base(), i - 1);
        WrapDoubled(cfg.Base() * Pow2(i - 1));
        delay := Wrap64(delay * 2);
        i := i + 1;
      }
      assert i - 1 == Doublings(recent);
      mode := Backoff(time + delay);
    }
  }

  lemma DoubleDelay(base: int, n: nat)
    ensures base * Pow2(n) * 2 == base * Pow2(n + 1)
  {
  }

  /** The longest delays, in seconds, whose nanoseconds fit a 64-bit duration, and whose
      sixteenfold does. */
  const LONGEST_DELAY := 9223372036
  const LONGEST_DOUBLED := 576460752

  /** The delay is the base times 1, 2, 4, 8 or 16, unless that leaves 64 bits. */
  lemma DelayBounds(cfg: Config, recent: nat)
    requires cfg.Valid()
    ensures cfg.delaySeconds <= LONGEST_DELAY && recent <= 1 ==> Delay(cfg, recent) == cfg.Base()
    ensures cfg.delaySeconds <= LONGEST_DOUBLED ==>
              && cfg.Base() <= Delay(cfg, recent) <= 16 * cfg.Base()
              && (recent >= 5 ==> Delay(cfg, recent) == 16 * cfg.Base())
              && (recent <= 4 ==> Delay(cfg, recent + 1) == if recent == 0 then cfg.Base() else 2 * Delay(cfg, recent))
  {
    Powers();
  }

  lemma Powers()
    ensures Pow2(0) == 1 && Pow2(1) == 2 && Pow2(2) == 4 && Pow2(3) == 8 && Pow2(4) == 16
  {
    assert Pow2(2) == 2 * Pow2(1) && Pow2(3) == 2 * Pow2(2) && Pow2(4) == 2 * Pow2(3);
  }

  /** Every delay lies between the base and sixteen times it if and only if the base is
      at most 576460752 seconds, some eighteen years. */
  lemma DelayBoundsIff(cfg: Config)
    requires cfg.Valid()
    ensures (forall recent: nat :: cfg.Base() <= Delay(cfg, recent) <= 16 * cfg.Base())
            <==> cfg.delaySeconds <= LONGEST_DOUBLED
  {
    if cfg.delaySeconds <= LONGEST_DOUBLED {
      forall recent: nat ensures cfg.Base() <= Delay(cfg, recent) <= 16 * cfg.Base() {
        DelayBounds(cfg, recent);
      }
    } else {
      var recent := ShortDelay(cfg);
      assert Delay(cfg, recent) < cfg.Base();
    }
  }

  /** The first doubling to leave 64 bits makes the delay too short. */
  lemma ShortDelay(cfg: Config) returns (recent: nat)
    requires cfg.Valid() && cfg.delaySeconds > LONGEST_DOUBLED
    ensures 1 <= recent <= 5 && Delay(cfg, recent) < cfg.Base()
  {
    Powers();
    var base := cfg.Base();
    recent := if base > MAX_INT64 then 1 else if 2 * base > MAX_INT64 then 2
              else if 4 * base > MAX_INT64 then 3 else if 8 * base > MAX_INT64 then 4 else 5;
    var k := Pow2(recent - 1);
    assert Doublings(recent) == recent - 1 && base * k > MAX_INT64;
    if recent > 1 { assert base * k <= 2 * MAX_INT64; }
  }

  // ----- runs ----------------------------------------------------------------

  function Initial(cfg: Config, time: int): Sup {
    Sup(cfg, Top, Stopped, false, false, 0, [], time, false)
  }

  predicate Legal(s: Sup, run: seq<Event>)
    decreases |run|
  {
    run == [] || (Enabled(s, run[0]) && Legal(Apply(s, run[0]), run[1..]))
  }

  function After(s: Sup, run: seq<Event>): Sup
    requires Legal(s, run)
    decreases |run|
  {
    if run == [] then s else After(Apply(s, run[0]), run[1..])
  }

  /** Crashes in the trailing window that ends at `time`. */
  function InWindow(times: seq<int>, time: int): (n: nat)
  {
    if times == [] then 0
    else
      var t := times[|times| - 1];
      InWindow(times[..|times| - 1], time) + if time - WINDOW < t <= time then 1 else 0
  }

  lemma {:induction false} CountShrinks(times: seq<int>, c0: int, c1: int)
    requires c0 <= c1
    ensures CountAfter(times, c1) <= CountAfter(times, c0)
  {
    if times != [] { CountShrinks(times[..|times| - 1], c0, c1); }
  }

  lemma {:induction false} WindowIsCounted(times: seq<int>, time: int)
    ensures InWindow(times, time) <= CountAfter(times, time - WINDOW)
  {
    if times != [] { WindowIsCounted(times[..|times| - 1], time); }
  }

  /** Below the limit before a crash means at most the limit in every window after it. */
  lemma CrashKeepsWindows(times: seq<int>, t: int, max: int, time: int)
    requires CountAfter(times, t - WINDOW) < max && InWindow(times, time) <= max
    ensures InWindow(times + [t], time) <= max
    ensures CountAfter(times + [t], t - WINDOW) <= max
  {
    var more := times + [t];
    assert more[..|more| - 1] == times;
    if t <= time {
      WindowIsCounted(more, time);
      CountShrinks(more, t - WINDOW, time - WINDOW);
    }
  }

  ghost predicate WindowsHold(s: Sup) {
    forall time :: InWindow(s.crashTimes, time) <= s.cfg.maxCrashLoop
  }

  /** Fewer crashes than the limit are recent, but for one just recorded. */
  ghost predicate Inv(s: Sup) {
    && s.cfg.Valid() && s.cfg.Protected() && WindowsHold(s)
    && (s.mode.Done? || CountAfter(s.crashTimes, s.now - WINDOW) <
        s.cfg.maxCrashLoop + if s.mode == Exited(Crashed) then 1 else 0)
  }

  lemma InvStep(s: Sup, e: Event)
    requires Inv(s) && Enabled(s, e)
    ensures Inv(Apply(s, e))
  {
    var t := Apply(s, e);
    match e
    case Clock(time) => CountShrinks(s.crashTimes, s.now - WINDOW, time - WINDOW);
    case Exit(code) =>
      if t.crashTimes != s.crashTimes {
        forall time ensures InWindow(t.crashTimes, time) <= t.cfg.maxCrashLoop {
          CrashKeepsWindows(s.crashTimes, s.now, s.cfg.maxCrashLoop, time);
        }
        CrashKeepsWindows(s.crashTimes, s.now, s.cfg.maxCrashLoop, s.now);
      }
    case _ =>
  }

  lemma {:induction false} InvRun(s: Sup, run: seq<Event>)
    requires Inv(s) && Legal(s, run)
    ensures Inv(After(s, run))
    decreases |run|
  {
    if run != [] {
      InvStep(s, run[0]);
      InvRun(Apply(s, run[0]), run[1..]);
    }
  }

  /** Over every run under `on-failure` or `always`, no ten-minute window ever holds
      more crashes than the configured limit. */
  lemma NoCrashLoop(cfg: Config, start: int, run: seq<Event>, time: int)
    requires cfg.Valid() && (cfg.policy == OnFailure || cfg.policy == Always) && Legal(Initial(cfg, start), run)
    ensures var times := After(Initial(cfg, start), run).crashTimes;
            |set i | 0 <= i < |times| && time - 10 * 60 * SECOND < times[i] <= time| <= cfg.maxCrashLoop
  {
    KeepsConfig(Initial(cfg, start), run);
    InvRun(Initial(cfg, start), run);
    WindowIsIndices(After(Initial(cfg, start), run).crashTimes, time);
  }

  /** The crashes of a window, counted over their indices. */
  lemma {:induction false} WindowIsIndices(times: seq<int>, time: int)
    ensures InWindow(times, time) == |set i | 0 <= i < |times| && time - 10 * 60 * SECOND < times[i] <= time|
  {
    if times != [] {
      var front, last := times[..|times| - 1], |times| - 1;
      WindowIsIndices(front, time);
      var before := set i | 0 <= i < |front| && time - 10 * 60 * SECOND < front[i] <= time;
      var all := set i | 0 <= i < |times| && time - 10 * 60 * SECOND < times[i] <= time;
      assert all == if time - 10 * 60 * SECOND < times[last] <= time then before + {last} else before;
    }
  }

  /** When no crash lies ahead, the recent crashes are those of the window up to now. */
  lemma {:induction false} CountIsWindow(times: seq<int>, now: int)
    requires forall i :: 0 <= i < |times| ==> times[i] <= now
    ensures CountAfter(times, now - WINDOW) == InWindow(times, now)
  {
    if times != [] { CountIsWindow(times[..|times| - 1], now); }
  }

  lemma {:induction false} KeepsConfig(s: Sup, run: seq<Event>)
    requires Legal(s, run)
    ensures After(s, run).cfg == s.cfg
    decreases |run|
  {
    if run != [] { KeepsConfig(Apply(s, run[0]), run[1..]); }
  }

  // ----- stop requests -------------------------------------------------------

  /** No exit, and nothing that follows one. */
  predicate Quiet(run: seq<Event>) {
    forall i :: 0 <= i < |run| ==> !run[i].Exit? && !run[i].Judge? && !run[i].Rest? && !run[i].Wake? && !run[i].Begin?
  }

  /** A stop requested now is taken note of and no restart is pending. */
  predicate StopCounts(s: Sup) {
    !s.restartIntent && (s.cancelled || s.stopIntent || (!s.state.Stopped? && !s.state.Crashed?))
  }

  predicate StopPending(s: Sup) {
    !s.restartIntent && (s.cancelled || s.stopIntent) && !s.state.Running? && !s.state.Starting?
  }

  lemma {:induction false} QuietKeepsMode(s: Sup, run: seq<Event>)
    requires s.mode.Child? && Quiet(run) && Legal(s, run)
    ensures After(s, run).mode.Child?
    decreases |run|
  {
    if run != [] { QuietKeepsMode(Apply(s, run[0]), run[1..]); }
  }

  lemma {:induction false} QuietKeepsStop(s: Sup, run: seq<Event>)
    requires StopPending(s) && s.mode.Child? && Quiet(run) && Legal(s, run)
    ensures StopPending(After(s, run)) && After(s, run).mode.Child?
    decreases |run|
  {
    if run != [] { QuietKeepsStop(Apply(s, run[0]), run[1..]); }
  }

  /** The next exit of the child is a clean stop, whatever is asked in the meantime
      and whatever the exit code. */
  ghost predicate AlwaysStops(s: Sup) {
    forall run, code :: Quiet(run) && Legal(s, run) && After(s, run).mode.Child? ==>
      Verdict(After(s, run), code) == Stopped
  }

  /** While the child is up, a stop request makes its exit a clean stop for certain if
      and only if no restart was requested before it and the state lets it register. */
  lemma StopMakesExitCleanIff(s: Sup)
    requires s.mode.Child?
    ensures AlwaysStops(Apply(s, Stop)) <==> StopCounts(s)
  {
    var t := Apply(s, Stop);
    if StopCounts(s) {
      forall run, code | Quiet(run) && Legal(t, run) && After(t, run).mode.Child?
        ensures Verdict(After(t, run), code) == Stopped
      {
        QuietKeepsStop(t, run);
      }
    } else {
      assert Quiet([]) && Legal(t, []) && After(t, []) == t;
      assert Verdict(t, 1) != Stopped;
    }
  }

  predicate AsksNoRestart(run: seq<Event>)
    decreases |run|
  {
    run == [] || (!run[0].FlagRestart? && AsksNoRestart(run[1..]))
  }

  /** From here the loop does not come to start the script again, unless the unit is
      being stopped and the loop returns there.  `again` lets restarts be requested
      on the way. */
  ghost predicate NeverRestarts(s: Sup, again: bool) {
    forall run :: Legal(s, run) && (again || AsksNoRestart(run)) && After(s, run).mode.Top? ==> After(s, run).cancelled
  }

  /** When a stop request prevents the restart, by what is known when it is made. */
  predicate StopHolds(s: Sup, again: bool) {
    s.cancelled ||
    match s.mode
    case Done(_) => true
    case Exited(v) => v == Stopped || (v == Crashed && s.cfg.policy == Never)
    case Child => StopRegisters(s)
    case Launching(idle) => StopRegisters(s) && (idle ==> !again)
    case _ => false
  }

  predicate StopRegisters(s: Sup) {
    !s.restartIntent && (s.stopIntent || (!s.state.Stopped? && !s.state.Crashed?) || s.cfg.policy == Never)
  }

  /** What keeps the loop from its top, step by step. */
  predicate Held(s: Sup, again: bool) {
    s.cancelled ||
    match s.mode
    case Done(_) => true
    case Exited(v) => v == Stopped || (v == Crashed && s.cfg.policy == Never)
    case Child => HeldUp(s, again)
    case Launching(idle) => HeldUp(s, again) && (idle ==> !again)
    case _ => false
  }

  predicate HeldUp(s: Sup, again: bool) {
    !s.restartIntent && (s.stopIntent || s.cfg.policy == Never) && (again ==> !s.state.Running? && !s.state.Starting?)
  }

  lemma HeldStep(s: Sup, e: Event, again: bool)
    requires Held(s, again) && Enabled(s, e) && (again || !e.FlagRestart?)
    ensures Held(Apply(s, e), again)
  {
  }

  lemma {:induction false} HeldRun(s: Sup, run: seq<Event>, again: bool)
    requires Held(s, again) && Legal(s, run) && (again || AsksNoRestart(run))
    ensures Held(After(s, run), again)
    decreases |run|
  {
    if run != [] {
      HeldStep(s, run[0], again);
      HeldRun(Apply(s, run[0]), run[1..], again);
    }
  }

  /** Crashes were recorded at times past. */
  predicate CrashesPast(s: Sup) {
    forall i :: 0 <= i < |s.crashTimes| ==> s.crashTimes[i] <= s.now
  }

  lemma {:induction false} NoneAfter(times: seq<int>, now: int)
    requires forall i :: 0 <= i < |times| ==> times[i] <= now
    ensures CountAfter(times, now) == 0
  {
    if times != [] { NoneAfter(times[..|times| - 1], now); }
  }

  function StepsToTop(s: Sup): nat {
    match s.mode
    case Top => 0
    case Backoff(_) => 1
    case Cleared => 2
    case Exited(_) => 3
    case Child => if s.restartIntent then 4 else 5
    case Launching(_) => if s.restartIntent then 6 else 7
    case Done(_) => 8
  }

  /** Time to let every crash grow old, or to sit the delay out. */
  function WaitFor(s: Sup): int {
    if s.mode.Backoff? then (if s.now < s.mode.until then s.mode.until else s.now) else s.now + WINDOW
  }

  /** The next event on the way back to the top of the loop, after some waiting. */
  function TowardsTop(s: Sup, again: bool): Event {
    match s.mode
    case Backoff(_) => Wake
    case Cleared => Rest
    case Exited(_) => Judge
    case _ =>
      if again && !s.restartIntent && (s.state.Running? || s.state.Starting?) then FlagRestart
      else if s.mode.Child? then Exit(1)
      else Launch(true)
  }

  lemma StepTowardsTop(s: Sup, again: bool)
    requires s.cfg.Valid() && CrashesPast(s) && !Held(s, again) && !s.mode.Top?
    ensures var w, e := Apply(s, Clock(WaitFor(s))), TowardsTop(s, again);
            && Enabled(s, Clock(WaitFor(s))) && Enabled(w, e) && (again || !e.FlagRestart?)
            && var t := Apply(w, e);
               t.cfg == s.cfg && CrashesPast(t) && !Held(t, again) && StepsToTop(t) < StepsToTop(s)
  {
    NoneAfter(s.crashTimes, s.now);
    CrashesStayPast(s, Clock(WaitFor(s)));
    hide CrashesPast, CountAfter, Delay;
    CrashesStayPast(Apply(s, Clock(WaitFor(s))), TowardsTop(s, again));
  }

  lemma CrashesStayPast(s: Sup, e: Event)
    requires CrashesPast(s) && Enabled(s, e)
    ensures CrashesPast(Apply(s, e))
  {
  }

  lemma NotHeld(s: Sup, again: bool)
    requires !Held(s, again)
    ensures !s.cancelled && !s.mode.Done?
  {
  }

  lemma {:induction false} RunToTop(s: Sup, again: bool) returns (run: seq<Event>)
    requires s.cfg.Valid() && CrashesPast(s) && !Held(s, again)
    ensures Legal(s, run) && (again || AsksNoRestart(run))
    ensures After(s, run).mode.Top? && !After(s, run).cancelled
    decreases StepsToTop(s)
  {
    NotHeld(s, again);
    hide Held, TowardsTop, StepsToTop, CrashesPast;
    if s.mode.Top? {
      run := [];
    } else {
      StepTowardsTop(s, again);
      var c, e := Clock(WaitFor(s)), TowardsTop(s, again);
      var w := Apply(s, c);
      var rest := RunToTop(Apply(w, e), again);
      hide Apply, Enabled;
      OneStep(w, e, rest);
      OneStep(s, c, [e] + rest);
      run := [c] + ([e] + rest);
    }
  }

  /** A stop request prevents the restart if and only if the unit is being stopped, the
      loop has returned or will after this exit, or the script is up or being launched,
      no restart was requested before, and the request registers or the policy is
      `never`.  A restart requested afterwards undoes it only during a launch. */
  lemma StopPreventsRestartIff(s: Sup, again: bool)
    requires s.cfg.Valid() && CrashesPast(s)
    ensures NeverRestarts(Apply(s, Stop), again) <==> StopHolds(s, again)
  {
    var t := Apply(s, Stop);
    assert StopHolds(s, again) <==> Held(t, again);
    if Held(t, again) {
      forall run | Legal(t, run) && (again || AsksNoRestart(run)) && After(t, run).mode.Top?
        ensures After(t, run).cancelled
      {
        HeldRun(t, run, again);
      }
    } else {
      var run := RunToTop(t, again);
    }
  }

  /** During the back-off a stop request does not prevent the restart: the script is
      started again when the delay is over. */
  lemma StopDuringBackoffRestarts(s: Sup)
    requires s.mode.Backoff? && !s.cancelled && !s.state.Running? && !s.state.Starting?
    ensures var run := [Stop, Clock(WaitFor(s)), Wake, Begin, Launch(true)];
            Legal(s, run) && After(s, run).mode == Child && After(s, run).state == Starting
  {
    var c := Clock(WaitFor(s));
    var s1 := Apply(s, Stop);
    var s2 := Apply(s1, c);
    var s3 := Apply(s2, Wake);
    var s4 := Apply(s3, Begin);
    OneStep(s4, Launch(true), []);
    OneStep(s3, Begin, [Launch(true)]);
    OneStep(s2, Wake, [Begin, Launch(true)]);
    OneStep(s1, c, [Wake, Begin, Launch(true)]);
    OneStep(s, Stop, [c, Wake, Begin, Launch(true)]);
  }

  /** A stop request that comes during the launch does not keep the script from
      coming up; it keeps it from being started again, unless a restart is requested. */
  lemma StopDuringLaunch(s: Sup)
    requires s.cfg.Valid() && CrashesPast(s)
    requires s.mode == Launching(true) && s.state.Starting? && !s.restartIntent && !s.cancelled
    ensures var run := [Stop, Launch(true)];
            Legal(s, run) && After(s, run).mode == Child && After(s, run).state == Starting
    ensures NeverRestarts(Apply(s, Stop), false) && !NeverRestarts(Apply(s, Stop), true)
  {
    OneStep(Apply(s, Stop), Launch(true), []);
    OneStep(s, Stop, [Launch(true)]);
    StopPreventsRestartIff(s, false);
    StopPreventsRestartIff(s, true);
    hide NeverRestarts, CrashesPast, Apply, Legal, After;
  }

  lemma OneStep(s: Sup, e: Event, run: seq<Event>)
    requires Enabled(s, e) && Legal(Apply(s, e), run)
    ensures Legal(s, [e] + run) && After(s, [e] + run) == After(Apply(s, e), run)
    ensures AsksNoRestart([e] + run) <==> !e.FlagRestart? && AsksNoRestart(run)
  {
  }

  // ----- what becomes of an exit ---------------------------------------------

  /** A crash is about to be judged, and the last ten minutes hold too many. */
  predicate CrashLooping(s: Sup) {
    && s.mode == Exited(Crashed) && !s.cancelled && (s.cfg.policy == OnFailure || s.cfg.policy == Always)
    && |set i | 0 <= i < |s.crashTimes| && s.now - 10 * 60 * SECOND < s.crashTimes[i] <= s.now| >= s.cfg.maxCrashLoop
  }

  /** At some judgement of the run the crashes are looping. */
  predicate Loops(s: Sup, run: seq<Event>)
    requires Legal(s, run)
    decreases |run|
  {
    run != [] && ((run[0].Judge? && CrashLooping(s)) || Loops(Apply(s, run[0]), run[1..]))
  }

  /** Judging gives up with the crash-loop error exactly then, and nothing else does. */
  lemma GivesUpStep(s: Sup, e: Event)
    requires CrashesPast(s) && Enabled(s, e) && s.mode != Done(true)
    ensures Apply(s, e).mode == Done(true) <==> e.Judge? && CrashLooping(s)
  {
    CountIsWindow(s.crashTimes, s.now);
    WindowIsIndices(s.crashTimes, s.now);
    hide CountAfter, InWindow, Delay;
  }

  /** Over any run `Run` returns the crash-loop error if and only if it judges a crash,
      under `on-failure` or `always` and with the unit not being stopped, at a moment when
      the last ten minutes hold at least the limit of crashes. */
  lemma {:induction false} GivesUpIff(s: Sup, run: seq<Event>)
    requires CrashesPast(s) && Legal(s, run) && s.mode != Done(true)
    ensures After(s, run).mode == Done(true) <==> Loops(s, run)
    decreases |run|
  {
    if run != [] {
      GivesUpStep(s, run[0]);
      CrashesStayPast(s, run[0]);
      hide CrashLooping, CrashesPast, Apply, Enabled;
      if Apply(s, run[0]).mode == Done(true) {
        StaysDone(Apply(s, run[0]), run[1..]);
      } else {
        GivesUpIff(Apply(s, run[0]), run[1..]);
      }
    }
  }

  lemma {:induction false} StaysDone(s: Sup, run: seq<Event>)
    requires Legal(s, run) && s.mode.Done?
    ensures After(s, run).mode == s.mode
    decreases |run|
  {
    if run != [] { StaysDone(Apply(s, run[0]), run[1..]); }
  }

  /** The exits after which the script is started again: a requested restart, and a
      crash unless the policy is `never` or the crashes are looping. */
  predicate Restarts(s: Sup)
    requires s.mode.Exited?
  {
    !s.cancelled && s.mode.verdict != Stopped
    && (s.mode.verdict == Crashed ==> s.cfg.policy != Never && !CrashLooping(s))
  }

  lemma JudgedAs(s: Sup)
    requires s.mode.Exited? && CrashesPast(s)
    ensures var t := Apply(s, Judge); if Restarts(s) then t == s.(mode := Cleared) else t.mode.Done?
  {
    GivesUpStep(s, Judge);
    hide CrashLooping, CrashesPast, CountAfter;
  }

  /** From the decision to restart the loop waits for the delay and is at its top. */
  lemma WaitsOut(s: Sup)
    requires s.mode.Cleared? && !s.cancelled
    ensures var until := s.now + Delay(s.cfg, CountAfter(s.crashTimes, s.now - WINDOW));
            var run := [Rest, Clock(if s.now < until then until else s.now), Wake];
            && Legal(s, run) && After(s, run).mode.Top? && !After(s, run).cancelled
            && After(s, run).now == if s.now < until then until else s.now
  {
    hide Delay, CountAfter;
    var s1 := Apply(s, Rest);
    var c := Clock(WaitFor(s1));
    var s2 := Apply(s1, c);
    OneStep(s2, Wake, []);
    OneStep(s1, c, [Wake]);
    OneStep(s, Rest, [c, Wake]);
  }

  /** Judged at once, such an exit leads back to the top of the loop when its delay is
      over, and any other exit makes `Run` return. */
  lemma RestartsIff(s: Sup)
    requires s.mode.Exited? && CrashesPast(s)
    ensures Restarts(s) ==>
              var until := s.now + Delay(s.cfg, CountAfter(s.crashTimes, s.now - WINDOW));
              var run := [Judge] + [Rest, Clock(if s.now < until then until else s.now), Wake];
              Legal(s, run) && After(s, run).mode.Top? && !After(s, run).cancelled
    ensures !Restarts(s) ==> Apply(s, Judge).mode.Done?
  {
    JudgedAs(s);
    if Restarts(s) {
      assert !s.cancelled;
      WaitsOut(s.(mode := Cleared));
      var until := s.now + Delay(s.cfg, CountAfter(s.crashTimes, s.now - WINDOW));
      var rest := [Rest, Clock(if s.now < until then until else s.now), Wake];
      hide Restarts, CrashesPast, CountAfter, Delay, Legal, After, Apply;
      OneStep(s, Judge, rest);
    }
  }

  /** After the script exits it is never started again, whatever is requested, if and
      only if the unit is being stopped or, with no restart requested, the exit was asked
      for, its code is zero or the policy is `never`. */
  lemma ExitEndsIff(s: Sup, code: int)
    requires s.cfg.Valid() && s.mode.Child? && CrashesPast(s)
    ensures NeverRestarts(Apply(s, Exit(code)), true)
            <==> s.cancelled || (!s.restartIntent && (s.stopIntent || code == 0 || s.cfg.policy == Never))
  {
    var t := Apply(s, Exit(code));
    CrashesStayPast(s, Exit(code));
    if Held(t, true) {
      forall run | Legal(t, run) && After(t, run).mode.Top? ensures After(t, run).cancelled {
        HeldRun(t, run, true);
      }
    } else {
      var run := RunToTop(t, true);
    }
  }

  /** Once the unit is being stopped the loop returns without an error at its next step, at
      the top, on a decision or in the back-off, which it does not sit out. */
  lemma CancelReturns(s: Sup)
    requires s.cancelled
    ensures s.mode.Top? ==> Apply(s, Begin).mode == Done(false)
    ensures s.mode.Exited? ==> Apply(s, Judge).mode == Done(false)
    ensures s.mode.Backoff? ==> Enabled(s, Wake) && Apply(s, Wake).mode == Done(false)
  {
  }

  /** Only a crash, an unasked exit with another code than zero, is recorded as one. */
  lemma OnlyCrashesAreTimed(s: Sup, e: Event)
    requires Enabled(s, e)
    ensures Apply(s, e).crashTimes ==
            if e.Exit? && e.code != 0 && !s.restartIntent && !s.stopIntent && !s.cancelled
            then s.crashTimes + [s.now] else s.crashTimes
  {
  }

  // ----- restarts are spaced -------------------------------------------------

  /** The script is about to be started, or is up. */
  predicate UpAgain(s: Sup) {
    s.mode.Top? || s.mode.Launching? || s.mode.Child?
  }

  /** From a recorded exit on, nothing starts before the base delay has passed. */
  ghost predicate Waits(s: Sup) {
    forall run :: Legal(s, run) && UpAgain(After(s, run)) ==> s.now + s.cfg.Base() <= After(s, run).now
  }

  /** No delay chosen from here on is shorter than the base: either no doubling leaves 64
      bits, or the base outlasts the window and crashes never come close to one another. */
  predicate Steady(s: Sup) {
    s.cfg.delaySeconds <= LONGEST_DOUBLED || (s.cfg.delaySeconds <= LONGEST_DELAY && Sparse(s))
  }

  /** At most one crash is recent, and none once the script is started again. */
  predicate Sparse(s: Sup) {
    && CrashesPast(s)
    && match s.mode
       case Done(_) => true
       case Exited(_) => CountAfter(s.crashTimes, s.now - WINDOW) <= 1
       case Cleared => CountAfter(s.crashTimes, s.now - WINDOW) <= 1
       case Backoff(until) => CountAfter(s.crashTimes, until - WINDOW) == 0
       case _ => CountAfter(s.crashTimes, s.now - WINDOW) == 0
  }

  lemma SteadyStep(s: Sup, e: Event)
    requires s.cfg.Valid() && Steady(s) && Enabled(s, e)
    ensures Steady(Apply(s, e)) && Apply(s, e).cfg == s.cfg
  {
    if s.cfg.delaySeconds > LONGEST_DOUBLED {
      CrashesStayPast(s, e);
      SparseStep(s, e);
    }
  }

  lemma SparseStep(s: Sup, e: Event)
    requires s.cfg.Valid() && Sparse(s) && Enabled(s, e) && LONGEST_DOUBLED < s.cfg.delaySeconds <= LONGEST_DELAY
    ensures Sparse(Apply(s, e))
  {
    CrashesStayPast(s, e);
    hide Sparse, Apply, CrashesPast;
    match e
    case Clock(time) => SparseClock(s, time);
    case Exit(code) => SparseExit(s, code);
    case Rest => SparseRest(s);
    case Wake => SparseWake(s);
    case _ => SparseOtherwise(s, e);
  }

  lemma SparseClock(s: Sup, time: int)
    requires Sparse(s) && s.now <= time && CrashesPast(Apply(s, Clock(time)))
    ensures Sparse(Apply(s, Clock(time)))
  {
    CountShrinks(s.crashTimes, s.now - WINDOW, time - WINDOW);
    hide CountAfter, CrashesPast;
  }

  lemma SparseOtherwise(s: Sup, e: Event)
    requires Sparse(s) && Enabled(s, e) && CrashesPast(Apply(s, e))
    requires !e.Clock? && !e.Exit? && !e.Rest? && !e.Wake?
    ensures Sparse(Apply(s, e))
  {
    hide CountAfter, CrashesPast, Verdict;
  }

  lemma SparseExit(s: Sup, code: int)
    requires Sparse(s) && s.mode.Child? && CrashesPast(Apply(s, Exit(code)))
    ensures Sparse(Apply(s, Exit(code)))
  {
    assert (s.crashTimes + [s.now])[..|s.crashTimes|] == s.crashTimes;
    hide CrashesPast;
  }

  lemma SparseRest(s: Sup)
    requires s.cfg.Valid() && Sparse(s) && s.mode.Cleared? && CrashesPast(Apply(s, Rest))
    requires LONGEST_DOUBLED < s.cfg.delaySeconds <= LONGEST_DELAY
    ensures Sparse(Apply(s, Rest))
  {
    DelayBounds(s.cfg, CountAfter(s.crashTimes, s.now - WINDOW));
    CrashesOver(s);
    CountShrinks(s.crashTimes, s.now, s.now + s.cfg.Base() - WINDOW);
    hide Delay, CountAfter, CrashesPast;
  }

  lemma SparseWake(s: Sup)
    requires Sparse(s) && Enabled(s, Wake) && CrashesPast(Apply(s, Wake))
    ensures Sparse(Apply(s, Wake))
  {
    if !s.cancelled { CountShrinks(s.crashTimes, s.mode.until - WINDOW, s.now - WINDOW); }
    hide CountAfter, CrashesPast;
  }

  lemma CrashesOver(s: Sup)
    requires CrashesPast(s)
    ensures CountAfter(s.crashTimes, s.now) == 0
  {
    NoneAfter(s.crashTimes, s.now);
  }

  lemma SteadyDelay(s: Sup)
    requires s.cfg.Valid() && Steady(s) && s.mode.Cleared?
    ensures s.cfg.Base() <= Delay(s.cfg, CountAfter(s.crashTimes, s.now - WINDOW))
  {
    DelayBounds(s.cfg, CountAfter(s.crashTimes, s.now - WINDOW));
  }

  /** Where the wait that ends no earlier than a given time has got to. */
  predicate Holds(s: Sup, earliest: int) {
    match s.mode
    case Exited(_) => s.cancelled || earliest <= s.now + s.cfg.Base()
    case Cleared => earliest <= s.now + s.cfg.Base()
    case Backoff(until) => earliest <= until || s.cancelled
    case Done(_) => true
    case _ => earliest <= s.now
  }

  lemma HoldsStep(s: Sup, e: Event, earliest: int)
    requires s.cfg.Valid() && Steady(s) && Holds(s, earliest) && Enabled(s, e)
    ensures Holds(Apply(s, e), earliest)
  {
    if e.Rest? { SteadyDelay(s); }
    hide Delay, CountAfter, Steady, Verdict;
  }

  lemma {:induction false} WaitsOn(s: Sup, run: seq<Event>, earliest: int)
    requires s.cfg.Valid() && Steady(s) && Holds(s, earliest) && Legal(s, run)
    ensures Holds(After(s, run), earliest)
    decreases |run|
  {
    if run != [] {
      SteadyStep(s, run[0]);
      HoldsStep(s, run[0], earliest);
      hide Steady, Holds, Apply, Enabled;
      WaitsOn(Apply(s, run[0]), run[1..], earliest);
    }
  }

  /** After an exit nothing starts again before the base delay has passed, from any
      steady state. */
  lemma RestartWaits(s: Sup)
    requires s.cfg.Valid() && s.mode.Exited? && Steady(s)
    ensures Waits(s)
  {
    forall run | Legal(s, run) && UpAgain(After(s, run)) ensures s.now + s.cfg.Base() <= After(s, run).now {
      WaitsOn(s, run, s.now + s.cfg.Base());
    }
    hide Steady;
  }

  /** A restart is requested, and the delay chosen is too short. */
  lemma RestartsEarly(s: Sup)
    requires s.mode == Exited(Restarting) && !s.cancelled
    requires Delay(s.cfg, CountAfter(s.crashTimes, s.now - WINDOW)) < s.cfg.Base() && s.cfg.Valid()
    ensures !Waits(s)
  {
    assert s.cfg.Base() > 0;
    var until := s.now + Delay(s.cfg, CountAfter(s.crashTimes, s.now - WINDOW));
    var rest := [Rest, Clock(if s.now < until then until else s.now), Wake];
    WaitsOut(s.(mode := Cleared));
    assert Apply(s, Judge) == s.(mode := Cleared);
    hide Delay, CountAfter, Config.Base, Legal, After, Apply;
    OneStep(s, Judge, rest);
    assert UpAgain(After(s, [Judge] + rest)) && After(s, [Judge] + rest).now < s.now + s.cfg.Base();
  }

  ghost predicate AllWait(cfg: Config) {
    forall s: Sup :: s.cfg == cfg && s.mode.Exited? ==> Waits(s)
  }

  /** Whatever crashes are on record, nothing starts before the base delay has passed
      after an exit, if and only if no doubling of the delay leaves 64 bits. */
  lemma AllWaitIff(cfg: Config)
    requires cfg.Valid()
    ensures AllWait(cfg) <==> cfg.delaySeconds <= LONGEST_DOUBLED
  {
    if cfg.delaySeconds <= LONGEST_DOUBLED {
      forall s: Sup | s.cfg == cfg && s.mode.Exited? ensures Waits(s) {
        RestartWaits(s);
      }
    } else {
      var recent := ShortDelay(cfg);
      var times := Recently(recent);
      var s := Sup(cfg, Exited(Restarting), Restarting, false, false, 0, times, 0, false);
      RestartsEarly(s);
    }
  }

  /** A record of so many crashes at time 0. */
  lemma {:induction false} Recently(n: nat) returns (times: seq<int>)
    ensures CountAfter(times, -WINDOW) == n
  {
    times := [];
    if n > 0 {
      var front := Recently(n - 1);
      times := front + [0];
      assert times[..|times| - 1] == front;
    }
  }

  /** In a run that begins with the supervisor, every exit is followed by the wait. */
  ghost predicate RestartsWait(cfg: Config, start: int) {
    forall run :: Legal(Initial(cfg, start), run) && After(Initial(cfg, start), run).mode.Exited? ==>
      Waits(After(Initial(cfg, start), run))
  }

  /** Over every run nothing is started before the base delay has passed after an exit,
      if and only if the delay in nanoseconds fits 64 bits: a base longer than the crash
      window never sees two recent crashes, so it is never doubled. */
  lemma RestartsWaitIff(cfg: Config, start: int)
    requires cfg.Valid()
    ensures RestartsWait(cfg, start) <==> cfg.delaySeconds <= LONGEST_DELAY
  {
    var s := Initial(cfg, start);
    if cfg.delaySeconds <= LONGEST_DELAY {
      forall run | Legal(s, run) && After(s, run).mode.Exited? ensures Waits(After(s, run)) {
        SteadyRun(s, run);
        RestartWaits(After(s, run));
      }
    } else {
      LongDelayRestartsEarly(cfg, start);
    }
  }

  lemma {:induction false} SteadyRun(s: Sup, run: seq<Event>)
    requires s.cfg.Valid() && Steady(s) && Legal(s, run)
    ensures Steady(After(s, run)) && After(s, run).cfg == s.cfg
    decreases |run|
  {
    if run != [] {
      SteadyStep(s, run[0]);
      hide Steady, Apply, Enabled;
      SteadyRun(Apply(s, run[0]), run[1..]);
    }
  }

  /** A requested restart after the first start comes too early. */
  lemma LongDelayRestartsEarly(cfg: Config, start: int)
    requires cfg.Valid() && cfg.delaySeconds > LONGEST_DELAY
    ensures !RestartsWait(cfg, start)
  {
    var s := Initial(cfg, start);
    var s1 := Apply(s, Begin);
    var s2 := Apply(s1, Launch(true));
    var s3 := Apply(s2, FlagRestart);
    var s4 := Apply(s3, Exit(1));
    OneStep(s3, Exit(1), []);
    OneStep(s2, FlagRestart, [Exit(1)] + []);
    OneStep(s1, Launch(true), [FlagRestart] + ([Exit(1)] + []));
    OneStep(s, Begin, [Launch(true)] + ([FlagRestart] + ([Exit(1)] + [])));
    Powers();
    assert Delay(cfg, 0) < cfg.Base();
    RestartsEarly(s4);
    hide Delay, Waits;
    var run := [Begin] + ([Launch(true)] + ([FlagRestart] + ([Exit(1)] + [])));
    assert After(s, run) == s4;
  }

  /** A delay of ten thousand million seconds is a negative one: the script restarts at
      once. */
  lemma LongDelayIsNone(policy: Policy, maxCrashLoop: Int64, start: int)
    requires maxCrashLoop > 0
    ensures var cfg := Config(policy, 10_000_000_000, maxCrashLoop);
            Delay(cfg, 0) == -8446744073709551616 && !RestartsWait(cfg, start)
  {
    Powers();
    LongDelayRestartsEarly(Config(policy, 10_000_000_000, maxCrashLoop), start);
    hide RestartsWait;
  }
}
