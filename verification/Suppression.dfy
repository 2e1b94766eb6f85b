/** Hiding the panel's own `list` polls from the console without ever hiding the
    operator's. */
module Suppression {
  import opened Text

  const SECOND := 1_000_000_000
  const LEASE := 5 * SECOND

  /** The closed list of bookkeeping commands. */
  predicate Bookkeeping(cmd: string) { cmd == "list" }

  /** The echo of a command, bare or after a prompt. */
  predicate IsEcho(line: string, cmd: string) {
    var trimmed := TrimSpace(line);
    trimmed == cmd || HasSuffix(trimmed, "> " + cmd)
  }

  /** `players online|There are \d+ of a max`. */
  predicate IsReply(line: string) {
    Contains(line, "players online") || HasThereAre(line)
  }

  predicate HasThereAre(line: string) {
    ("There are " <= line && DigitsThen(line[10..], 0)) || (line != [] && HasThereAre(line[1..]))
  }

  /** `\d+ of a max`, after `seen` digits. */
  predicate DigitsThen(s: string, seen: nat) {
    (seen > 0 && " of a max" <= s) || (s != [] && IsDigit(s[0]) && DigitsThen(s[1..], seen + 1))
  }

  /** A command whose text is being written to the terminal. */
  datatype Pending = Idle | Writing(cmd: string, internal: bool)

  datatype Sup = Sup(
    until: Option<int>, echo: string, echoPending: bool, replyPending: bool,
    visibleCommand: string, visibleUntil: Option<int>,
    pending: Pending, now: int,
    hidden: nat,     // lines hidden so far
    entered: nat)    // internal commands that opened a suppression

  datatype Event =
    | Clock(time: int)
    | Poll(cmd: string)     // SendInternalCommand
    | Command(cmd: string)  // SendCommand, cleaned and not empty
    | Written(ok: bool)     // the terminal write returned
    | Line(text: string)

  predicate Enabled(s: Sup, e: Event) {
    match e
    case Clock(time) => s.now <= time
    case Poll(cmd) => s.pending.Idle? && cmd != ""
    case Command(cmd) => s.pending.Idle? && cmd != ""
    case Written(_) => s.pending.Writing?
    case Line(_) => true
  }

  function Cleared(s: Sup): Sup {
    s.(until := None, echo := "", echoPending := false, replyPending := false)
  }

  /** The operator's recent command answers the poll too. */
  predicate LeaseHeld(s: Sup, cmd: string) {
    s.visibleCommand == cmd && s.visibleUntil.Some? && s.now < s.visibleUntil.value
  }

  predicate Hides(s: Sup, line: string) {
    && s.until.Some? && s.now <= s.until.value
    && ((s.echoPending && s.echo != "" && IsEcho(line, s.echo)) || (s.replyPending && IsReply(line)))
  }

  function Apply(s: Sup, e: Event): Sup
    requires Enabled(s, e)
  {
    match e
    case Clock(time) => s.(now := time)
    case Poll(cmd) => if Bookkeeping(cmd) then AfterPoll(s, cmd) else AfterCommand(s, cmd)
    case Command(cmd) => AfterCommand(s, cmd)
    case Written(ok) => AfterWrite(s, ok)
    case Line(text) => AfterLine(s, text)
  }

  function AfterPoll(s: Sup, cmd: string): Sup {
    if LeaseHeld(s, cmd) then s
    else s.(until := Some(s.now + LEASE), echo := cmd, echoPending := true, replyPending := true,
            pending := Writing(cmd, true), entered := s.entered + 1)
  }

  function AfterCommand(s: Sup, cmd: string): Sup {
    if Bookkeeping(cmd) then
      Cleared(s).(visibleCommand := cmd, visibleUntil := Some(s.now + LEASE), pending := Writing(cmd, false))
    else s.(pending := Writing(cmd, false))
  }

  function AfterWrite(s: Sup, ok: bool): Sup
    requires s.pending.Writing?
  {
    var t := s.(pending := Idle);
    if ok then t
    else if s.pending.internal then Cleared(t)
    else if s.visibleCommand == s.pending.cmd then t.(visibleCommand := "", visibleUntil := None)
    else t
  }

  function AfterLine(s: Sup, line: string): Sup {
    if s.until.None? || s.until.value < s.now then Cleared(s)
    else if !Hides(s, line) then s
    else
      var t := (if s.echoPending && s.echo != "" && IsEcho(line, s.echo) then s.(echoPending := false)
                else s.(replyPending := false)).(hidden := s.hidden + 1);
      if t.echoPending || t.replyPending then t else Cleared(t)
  }

  // ----- the fields and their methods ----------------------------------------

  class Supervisor {
    var suppressUntil: Option<int>
    var suppressEcho: string
    var suppressEchoPending: bool
    var suppressReplyPending: bool
    var visibleCommand: string
    var visibleUntil: Option<int>
    ghost var pending: Pending
    ghost var now: int
    ghost var hidden: nat
    ghost var entered: nat

    ghost function View(): Sup
      reads this
    {
      Sup(suppressUntil, suppressEcho, suppressEchoPending, suppressReplyPending,
          visibleCommand, visibleUntil, pending, now, hidden, entered)
    }

    method ClearSuppression()
      modifies this`suppressUntil, this`suppressEcho, this`suppressEchoPending, this`suppressReplyPending
      ensures View() == Cleared(old(View()))
    {
      suppressUntil, suppressEcho := None, "";
      suppressEchoPending, suppressReplyPending := false, false;
    }

    /** `sendCommand` up to the terminal write; `write` is false when a poll is dropped. */
    method BeginSend(cmd: string, internal: bool, time: int) returns (write: bool)
      requires time == now && cmd != "" && pending.Idle?
      modifies this
      ensures View() == Apply(old(View()), if internal then Poll(cmd) else Command(cmd))
      ensures write <==> pending.Writing?
    {
      if internal && Bookkeeping(cmd) {
        if visibleCommand == cmd && visibleUntil.Some? && time < visibleUntil.value {
          return false;
        }
        suppressUntil := Some(time + LEASE);
        suppressEcho := cmd;
        suppressEchoPending, suppressReplyPending := true, true;
        pending, entered := Writing(cmd, true), entered + 1;
      } else {
        if Bookkeeping(cmd) {
          ClearSuppression();
          visibleCommand, visibleUntil := cmd, Some(time + LEASE);
        }
        pending := Writing(cmd, false);
      }
      write := true;
    }

    /** `sendCommand` after the terminal write. */
    method EndSend(cmd: string, internal: bool, ok: bool)
      requires pending == Writing(cmd, internal)
      modifies this
      ensures View() == Apply(old(View()), Written(ok))
    {
      pending := Idle;
      if !ok {
        if internal {
          ClearSuppression();
        } else if visibleCommand == cmd {
          visibleCommand, visibleUntil := "", None;
        }
      }
    }

    /** `suppressed`: whether to keep a line out of the console. */
    method Suppressed(line: string, time: int) returns (suppressed: bool)
      requires time == now
      modifies this
      ensures View() == Apply(old(View()), Line(line))
      ensures suppressed <==> Hides(old(View()), line)
      ensures hidden == old(hidden) + if suppressed then 1 else 0
    {
      if suppressUntil.None? || suppressUntil.value < time {
        ClearSuppression();
        return false;
      }
      if suppressEchoPending && suppressEcho != "" && IsEcho(line, suppressEcho) {
        suppressEchoPending, hidden := false, hidden + 1;
      } else if suppressReplyPending && IsReply(line) {
        suppressReplyPending, hidden := false, hidden + 1;
      } else {
        return false;
      }
      if !suppressEchoPending && !suppressReplyPending { ClearSuppression(); }
      suppressed := true;
    }
  }

  // ----- runs ----------------------------------------------------------------

  predicate Legal(s: Sup, run: seq<Event>)
    decreases |run|
  {
    run == [] || (Enabled(s, run[0]) && Legal(Apply(s, run[0]), run[1..]))
  }

  function After(s: Sup, run: seq<Event>): Sup
    requires Legal(s, run)
    decreases |run|
  {
    if run == [] then s else After(Apply(s, run[0]), run[1..])
  }

  function Open(s: Sup): nat {
    (if s.echoPending then 1 else 0) + (if s.replyPending then 1 else 0)
  }

  /** How often the panel polls in a run. */
  function Polls(run: seq<Event>): nat {
    if run == [] then 0 else Polls(run[..|run| - 1]) + if run[|run| - 1].Poll? then 1 else 0
  }

  lemma {:induction false} PollsFromFront(run: seq<Event>)
    requires run != []
    ensures Polls(run) == (if run[0].Poll? then 1 else 0) + Polls(run[1..])
  {
    if |run| > 1 {
      PollsFromFront(run[..|run| - 1]);
      assert run[..|run| - 1][1..] == run[1..][..|run| - 2];
    }
  }

  lemma {:induction false} PollsAreIndices(run: seq<Event>)
    ensures Polls(run) == |set i | 0 <= i < |run| && run[i].Poll?|
  {
    if run != [] {
      var front, last := run[..|run| - 1], |run| - 1;
      PollsAreIndices(front);
      var before := set i | 0 <= i < |front| && front[i].Poll?;
      var all := set i | 0 <= i < |run| && run[i].Poll?;
      assert all == if run[last].Poll? then before + {last} else before;
    }
  }

  /** Each internal command that opens a suppression hides at most two lines: its
      echo and its reply. */
  lemma {:induction false} AtMostTwoPerPoll(s: Sup, run: seq<Event>)
    requires Legal(s, run)
    ensures var t := After(s, run);
            && t.hidden + Open(t) <= s.hidden + Open(s) + 2 * (t.entered - s.entered)
            && t.entered - s.entered <= |set i | 0 <= i < |run| && run[i].Poll?|
    decreases |run|
  {
    hide Apply, Polls, Open;
    PollsAreIndices(run);
    if run != [] {
      AtMostTwoStep(s, run[0]);
      AtMostTwoPerPoll(Apply(s, run[0]), run[1..]);
      PollsAreIndices(run[1..]);
      PollsFromFront(run);
    }
  }

  lemma AtMostTwoStep(s: Sup, e: Event)
    requires Enabled(s, e)
    ensures var t := Apply(s, e);
            && t.hidden + Open(t) <= s.hidden + Open(s) + 2 * (t.entered - s.entered)
            && t.entered - s.entered <= if e.Poll? then 1 else 0
  {
    hide IsEcho, IsReply;
  }

  /** Whatever is pending was opened by a bookkeeping command, and neither deadline
      is more than five seconds away. */
  predicate Sound(s: Sup) {
    && (Open(s) > 0 ==> s.until.Some? && s.until.value <= s.now + LEASE && Bookkeeping(s.echo))
    && (s.pending.Writing? && s.pending.internal ==> Bookkeeping(s.pending.cmd))
    && (s.visibleUntil.Some? ==> s.visibleUntil.value <= s.now + LEASE)
  }

  lemma StaysSoundStep(s: Sup, e: Event)
    requires Sound(s) && Enabled(s, e)
    ensures Sound(Apply(s, e))
  {
    hide IsEcho, IsReply;
  }

  lemma {:induction false} StaysSound(s: Sup, run: seq<Event>)
    requires Sound(s) && Legal(s, run)
    ensures Sound(After(s, run))
    ensures var t := After(s, run);
            && (t.echoPending || t.replyPending ==>
                  t.until.Some? && t.until.value <= t.now + 5 * SECOND && t.echo == "list")
            && (t.pending.Writing? && t.pending.internal ==> t.pending.cmd == "list")
            && (t.visibleUntil.Some? ==> t.visibleUntil.value <= t.now + 5 * SECOND)
    decreases |run|
  {
    if run != [] {
      StaysSoundStep(s, run[0]);
      hide Sound, Apply;
      StaysSound(Apply(s, run[0]), run[1..]);
    }
  }

  function Initial(time: int): Sup {
    Sup(None, "", false, false, "", None, Idle, time, 0, 0)
  }

  /** Only bookkeeping output is ever hidden, and never more than twice per poll. */
  lemma OnlyBookkeepingIsHidden(time: int, run: seq<Event>, line: string)
    requires Legal(Initial(time), run) && Hides(After(Initial(time), run), line)
    ensures IsEcho(line, "list") || IsReply(line)
    ensures After(Initial(time), run).hidden < 2 * After(Initial(time), run).entered
  {
    hide IsEcho, IsReply;
    StaysSound(Initial(time), run);
    AtMostTwoPerPoll(Initial(time), run);
  }

  // ----- what a poll hides ---------------------------------------------------

  /** "There are", digits and "of a max" from index `i` on. */
  predicate ThereAreAt(line: string, i: nat, digits: nat) {
    && digits >= 1 && i + 10 + digits <= |line| && "There are " <= line[i..]
    && AllDigits(line[i + 10..i + 10 + digits]) && " of a max" <= line[i + 10 + digits..]
  }

  /** Digits, at least one counting those seen, and then "of a max". */
  predicate NumberThen(s: string, seen: nat, n: nat) {
    n <= |s| && seen + n > 0 && AllDigits(s[..n]) && " of a max" <= s[n..]
  }

  lemma {:induction false} DigitsThenIff(s: string, seen: nat)
    ensures DigitsThen(s, seen) <==> exists n :: NumberThen(s, seen, n)
  {
    assert s[0..] == s;
    if seen > 0 && " of a max" <= s { assert NumberThen(s, seen, 0); }
    if s != [] {
      var tail, more := s[1..], seen + 1;
      DigitsThenIff(tail, more);
      if n: nat :| NumberThen(s, seen, n) {
        if n > 0 { OneDigitMore(s, seen, n - 1); }
      }
      if n: nat :| NumberThen(tail, more, n) {
        OneDigitMore(s, seen, n);
      }
    }
  }

  lemma OneDigitMore(s: string, seen: nat, n: nat)
    requires s != []
    ensures NumberThen(s, seen, n + 1) <==> IsDigit(s[0]) && NumberThen(s[1..], seen + 1, n)
  {
    if n < |s| {
      assert s[1..][n..] == s[n + 1..] && s[..n + 1] == [s[0]] + s[1..][..n];
    }
  }

  lemma {:induction false} ThereAreIff(line: string)
    ensures HasThereAre(line) <==> exists i, n :: ThereAreAt(line, i, n)
  {
    hide DigitsThen, ThereAreAt, NumberThen;
    if "There are " <= line {
      DigitsThenIff(line[10..], 0);
      if n: nat :| NumberThen(line[10..], 0, n) { ThereAreFirst(line, n); }
    }
    if line != [] { ThereAreIff(line[1..]); }
    if i: nat, n: nat :| ThereAreAt(line, i, n) {
      if i == 0 { ThereAreFirst(line, n); } else { ThereAreStep(line, i, n); }
    }
    if line != [] {
      if i: nat, n: nat :| ThereAreAt(line[1..], i, n) { ThereAreStep(line, i + 1, n); }
    }
  }

  lemma ThereAreFirst(line: string, n: nat)
    ensures ThereAreAt(line, 0, n) <==> "There are " <= line && NumberThen(line[10..], 0, n)
  {
    assert line[0..] == line;
    if 10 + n <= |line| {
      assert line[10..][..n] == line[10..10 + n] && line[10..][n..] == line[10 + n..];
    }
  }

  lemma ThereAreStep(line: string, i: nat, n: nat)
    requires i > 0
    ensures ThereAreAt(line, i, n) <==> line != [] && ThereAreAt(line[1..], i - 1, n)
  {
    if i + 10 + n <= |line| {
      assert line[1..][i - 1..] == line[i..] && line[1..][i + 9 + n..] == line[i + 10 + n..];
      assert line[1..][i + 9..i + 9 + n] == line[i + 10..i + 10 + n];
    }
  }

  /** What counts as the reply: "players online" somewhere, or "There are", a number and
      "of a max". */
  lemma ReplyIff(line: string)
    ensures IsReply(line) <==>
            || (exists i :: 0 <= i <= |line| && "players online" <= line[i..])
            || (exists i, n :: ThereAreAt(line, i, n))
  {
    ContainsIff(line, "players online");
    ThereAreIff(line);
    hide Contains, HasThereAre, ThereAreAt;
  }

  /** What counts as the echo: the command, white space aside, alone or after a prompt. */
  lemma EchoIff(line: string, cmd: string)
    ensures IsEcho(line, cmd) <==>
            TrimSpace(line) == cmd || exists prompt :: TrimSpace(line) == prompt + ['>', ' '] + cmd
  {
    hide TrimSpace;
    var t := TrimSpace(line);
    if HasSuffix(t, "> " + cmd) {
      var n := |t| - |cmd| - 2;
      assert t == t[..n] + t[n..] && t[n..] == "> " + cmd;
      assert t == t[..n] + ['>', ' '] + cmd;
    }
    if prompt :| t == prompt + ['>', ' '] + cmd {
      assert t[|prompt|..] == ['>', ' '] + cmd == "> " + cmd;
    }
  }

  /** The state in which a poll is on its way, sent at `sent`. */
  function Polled(s: Sup): Sup
    requires s.pending.Idle?
    requires !(s.visibleCommand == "list" && s.visibleUntil.Some? && s.now < s.visibleUntil.value)
  {
    Apply(Apply(s, Poll("list")), Written(true))
  }

  /** A poll without an operator's lease hides its echo and its reply, in either order,
      for five seconds, and nothing after them. */
  lemma PollHidesBoth(s: Sup, first: string, t1: int, second: string, t2: int, line: string)
    requires s.pending.Idle?
    requires !(s.visibleCommand == "list" && s.visibleUntil.Some? && s.now < s.visibleUntil.value)
    requires s.now <= t1 <= t2 <= s.now + 5 * SECOND
    requires || (IsEcho(first, "list") && IsReply(second))
             || (IsReply(first) && !IsEcho(first, "list") && IsEcho(second, "list"))
    ensures var u := Apply(Apply(Polled(s), Clock(t1)), Line(first));
            var v := Apply(Apply(u, Clock(t2)), Line(second));
            && u.hidden == s.hidden + 1 && v.hidden == s.hidden + 2 && Apply(v, Line(line)).hidden == v.hidden
            && v.until.None? && !v.echoPending && !v.replyPending
  {
    hide IsEcho, IsReply;
  }

  /** Any other line is shown and changes nothing; after five seconds every line is. */
  lemma OtherLinesAreShown(s: Sup, line: string, t: int)
    requires t > s.now + 5 * SECOND || (!IsEcho(line, "list") && !IsReply(line))
    requires s.pending.Idle? && s.now <= t
    requires !(s.visibleCommand == "list" && s.visibleUntil.Some? && s.now < s.visibleUntil.value)
    ensures var u := Apply(Polled(s), Clock(t));
            && Apply(u, Line(line)).hidden == s.hidden
            && (if t <= s.now + 5 * SECOND then Apply(u, Line(line)) == u else Apply(u, Line(line)).until.None?)
  {
    hide IsEcho, IsReply;
  }

  /** A poll that could not be written hides nothing, and during a lease none is sent. */
  lemma UnsentPollHidesNothing(s: Sup, line: string)
    requires s.pending.Idle?
    ensures s.visibleCommand == "list" && s.visibleUntil.Some? && s.now < s.visibleUntil.value ==>
              Apply(s, Poll("list")) == s
    ensures Apply(s, Poll("list")).pending.Writing? ==>
              var u := Apply(Apply(s, Poll("list")), Written(false)); Apply(u, Line(line)).hidden == s.hidden
  {
    hide IsEcho, IsReply;
  }

  // ----- the operator's own list ---------------------------------------------

  /** The write of an operator's bookkeeping command fails. */
  predicate FailsList(s: Sup, e: Event) {
    e == Written(false) && s.pending.Writing? && !s.pending.internal && Bookkeeping(s.pending.cmd)
  }

  /** No write of an operator's bookkeeping command fails during the run. */
  predicate NoFailedList(s: Sup, run: seq<Event>)
    requires Legal(s, run)
    decreases |run|
  {
    run == []
    || (!FailsList(s, run[0]) && NoFailedList(Apply(s, run[0]), run[1..]))
  }

  /** Nothing is being hidden and no poll is on its way to the terminal. */
  predicate Quiet(s: Sup) {
    s.until.None? && !s.echoPending && !s.replyPending && !(s.pending.Writing? && s.pending.internal)
  }

  predicate LeaseThrough(s: Sup, deadline: int) {
    s.visibleCommand == "list" && s.visibleUntil.Some? && deadline <= s.visibleUntil.value
  }

  lemma {:induction false} ClockAdvances(s: Sup, run: seq<Event>)
    requires Legal(s, run)
    ensures s.now <= After(s, run).now
    decreases |run|
  {
    hide IsEcho, IsReply;
    if run != [] { ClockAdvances(Apply(s, run[0]), run[1..]); }
  }

  lemma {:induction false} LeaseHidesNothing(s: Sup, run: seq<Event>, deadline: int)
    requires Sound(s) && Quiet(s) && LeaseThrough(s, deadline) && Legal(s, run) && NoFailedList(s, run)
    requires After(s, run).now < deadline
    ensures After(s, run).hidden == s.hidden
    decreases |run|
  {
    hide IsEcho, IsReply;
    if run != [] {
      ClockAdvances(s, run);
      var t := Apply(s, run[0]);
      ClockAdvances(t, run[1..]);
      LeaseHidesNothing(t, run[1..], deadline);
    }
  }

  /** No line can be hidden before the deadline, whatever happens short of a failed
      write of the operator's own command. */
  ghost predicate NothingHiddenBefore(s: Sup, deadline: int) {
    forall run :: Legal(s, run) && NoFailedList(s, run) && After(s, run).now < deadline ==>
      After(s, run).hidden == s.hidden
  }

  /** With nothing in flight, the console is safe from hiding up to a deadline if
      and only if the operator's visibility lease reaches that far. */
  lemma LeaseProtectsIff(s: Sup, deadline: int)
    requires Sound(s) && Quiet(s) && s.pending.Idle? && s.now < deadline
    ensures NothingHiddenBefore(s, deadline) <==> LeaseThrough(s, deadline)
  {
    if LeaseThrough(s, deadline) {
      forall run | Legal(s, run) && NoFailedList(s, run) && After(s, run).now < deadline
        ensures After(s, run).hidden == s.hidden
      {
        LeaseHidesNothing(s, run, deadline);
      }
    } else {
      PollHidesEcho(s, deadline);
    }
  }

  lemma PollHidesEcho(s: Sup, deadline: int)
    requires Quiet(s) && s.pending.Idle? && s.now < deadline && !LeaseThrough(s, deadline)
    ensures !NothingHiddenBefore(s, deadline)
  {
    var time := if s.visibleUntil.Some? && s.now < s.visibleUntil.value < deadline then s.visibleUntil.value else s.now;
    var late := Apply(s, Clock(time));
    var run := PollRun(late);
    OneStep(s, Clock(time), run);
    hide Apply, Legal, NoFailedList;
    assert After(s, [Clock(time)] + run).hidden == s.hidden + 1;
  }

  /** A poll without a lease hides the echo that answers it. */
  lemma PollRun(s: Sup) returns (run: seq<Event>)
    requires s.pending.Idle? && !LeaseHeld(s, "list")
    ensures Legal(s, run) && NoFailedList(s, run)
    ensures After(s, run).hidden == s.hidden + 1 && After(s, run).now == s.now
  {
    EchoOfList();
    hide IsEcho, IsReply;
    var s1 := Apply(s, Poll("list"));
    var s2 := Apply(s1, Written(true));
    OneStep(s2, Line("list"), []);
    OneStep(s1, Written(true), [Line("list")] + []);
    run := [Poll("list")] + ([Written(true)] + ([Line("list")] + []));
    OneStep(s, Poll("list"), [Written(true)] + ([Line("list")] + []));
  }

  lemma EchoOfList()
    ensures IsEcho("list", "list")
  {
  }

  lemma OneStep(s: Sup, e: Event, run: seq<Event>)
    requires Enabled(s, e) && Legal(Apply(s, e), run) && NoFailedList(Apply(s, e), run) && e != Written(false)
    ensures Legal(s, [e] + run) && NoFailedList(s, [e] + run) && After(s, [e] + run) == After(Apply(s, e), run)
  {
  }

  /** From the moment an operator's `list` is accepted, through its write and for
      five seconds on, no line is hidden ... */
  lemma OperatorListStaysVisible(s: Sup)
    requires Sound(s) && s.pending.Idle?
    ensures NothingHiddenBefore(Apply(s, Command("list")), s.now + LEASE)
  {
    var t := Apply(s, Command("list"));
    forall run | Legal(t, run) && NoFailedList(t, run) && After(t, run).now < s.now + LEASE
      ensures After(t, run).hidden == t.hidden
    {
      LeaseHidesNothing(t, run, s.now + LEASE);
    }
  }

  /** ... unless a second `list` fails to be written: that gives the first one's
      lease away, and the next poll hides a line within the five seconds. */
  lemma FailedListEndsLease(s: Sup)
    requires Sound(s) && s.pending.Idle?
    ensures var t := Apply(Apply(s, Command("list")), Written(true));
            var u := Apply(Apply(t, Command("list")), Written(false));
            !NothingHiddenBefore(u, s.now + LEASE)
  {
    var t := Apply(Apply(s, Command("list")), Written(true));
    var u := Apply(Apply(t, Command("list")), Written(false));
    LeaseProtectsIff(u, s.now + LEASE);
  }

  /** At no point of the run can a line be hidden before the deadline. */
  ghost predicate ProtectedAlong(s: Sup, run: seq<Event>, deadline: int)
    requires Legal(s, run)
    decreases |run|
  {
    NothingHiddenBefore(s, deadline)
    && (run == [] || ProtectedAlong(Apply(s, run[0]), run[1..], deadline))
  }

  lemma LeaseStep(s: Sup, e: Event, deadline: int)
    requires Sound(s) && Quiet(s) && LeaseThrough(s, deadline) && Enabled(s, e) && Apply(s, e).now < deadline
    ensures Sound(Apply(s, e)) && Quiet(Apply(s, e))
    ensures LeaseThrough(Apply(s, e), deadline) <==> !FailsList(s, e)
    ensures FailsList(s, e) ==> Apply(s, e).pending.Idle?
  {
    hide IsEcho, IsReply;
  }

  /** The lease protects the console throughout a run if and only if no write of an
      operator's `list` fails on it: the first one that does gives the lease away. */
  lemma {:induction false} ProtectedAlongIff(s: Sup, run: seq<Event>, deadline: int)
    requires Sound(s) && Quiet(s) && LeaseThrough(s, deadline) && Legal(s, run) && After(s, run).now < deadline
    ensures ProtectedAlong(s, run, deadline) <==> NoFailedList(s, run)
    decreases |run|
  {
    hide Sound, Quiet, LeaseThrough, Apply, Enabled;
    forall more | Legal(s, more) && NoFailedList(s, more) && After(s, more).now < deadline
      ensures After(s, more).hidden == s.hidden
    {
      LeaseHidesNothing(s, more, deadline);
    }
    if run != [] {
      var t := Apply(s, run[0]);
      ClockAdvances(t, run[1..]);
      LeaseStep(s, run[0], deadline);
      if FailsList(s, run[0]) {
        LeaseProtectsIff(t, deadline);
      } else {
        ProtectedAlongIff(t, run[1..], deadline);
      }
    }
  }

  /** For five seconds from the acceptance of an operator's `list` the console is safe
      from hiding exactly on the runs on which no such write fails. */
  lemma OperatorListVisibleIff(s: Sup, run: seq<Event>)
    requires Sound(s) && s.pending.Idle?
    requires Legal(Apply(s, Command("list")), run) && After(Apply(s, Command("list")), run).now < s.now + LEASE
    ensures ProtectedAlong(Apply(s, Command("list")), run, s.now + LEASE)
            <==> NoFailedList(Apply(s, Command("list")), run)
  {
    hide ProtectedAlong, NoFailedList, Legal, After;
    ProtectedAlongIff(Apply(s, Command("list")), run, s.now + LEASE);
  }
}
