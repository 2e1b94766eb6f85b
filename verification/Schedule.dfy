/** Schedule expressions: from the stored text to the next planned second. */
module Schedule {
  import opened Text
  import opened Calendar
  import opened Recurrence
  import Cron
  import Stamps

  /** A schedule's type and expression. */
  datatype Plan = Plan(kind: string, expression: string)

  const DAY_NAMES: seq<string> := ["SUN", "MON", "TUE", "WED", "THU", "FRI", "SAT"]

  datatype Error =
    | BadStamp | BadMinute | BadTime | BadWeekly | UnknownWeekday | BadMonthly | BadDay | BadInterval
    | UnknownType | CronError(error: Cron.Error)

  // ----- parsing -------------------------------------------------------------

  /** `parseHMS`: HH:MM or HH:MM:SS. */
  function ParseHMS(value: string): (r: Option<(int, int, int)>)
    ensures r.Some? ==> 0 <= r.value.0 < 24 && 0 <= r.value.1 < 60 && 0 <= r.value.2 < 60
  {
    var parts := Split(TrimSpace(value), ':');
    if |parts| != 2 && |parts| != 3 then None
    else
      match (Atoi(parts[0]), Atoi(parts[1]), if |parts| == 3 then Atoi(parts[2]) else Some(0))
      case (Some(h), Some(m), Some(s)) =>
        if 0 <= h < 24 && 0 <= m < 60 && 0 <= s < 60 then Some((h, m, s)) else None
      case _ => None
  }

  /** `parseHourly`: MM or MM:SS. */
  function ParseHourly(value: string): (r: Option<(int, int)>)
    ensures r.Some? ==> 0 <= r.value.0 < 60 && 0 <= r.value.1 < 60
  {
    var parts := Split(TrimSpace(value), ':');
    if |parts| > 2 then None
    else
      match (Atoi(parts[0]), if |parts| == 2 then Atoi(parts[1]) else Some(0))
      case (Some(m), Some(s)) => if 0 <= m < 60 && 0 <= s < 60 then Some((m, s)) else None
      case _ => None
  }

  /** `strings.ToUpper`, as far as it can produce an ASCII letter. */
  function ToUpper(s: string): (r: string)
    ensures |r| == |s|
  {
    seq(|s|, i requires 0 <= i < |s| =>
      if 'a' <= s[i] <= 'z' then s[i] - 'a' + 'A'
      else if s[i] == '\U{17f}' then 'S'
      else if s[i] == '\U{131}' then 'I'
      else s[i])
  }

  function WeekdayNamed(name: string): (r: Option<int>)
    ensures r.Some? ==> 0 <= r.value < 7
  {
    var n := ToUpper(name);
    if n == "SUN" then Some(0) else if n == "MON" then Some(1) else if n == "TUE" then Some(2)
    else if n == "WED" then Some(3) else if n == "THU" then Some(4) else if n == "FRI" then Some(5)
    else if n == "SAT" then Some(6) else None
  }

  /** The kinds with a calendar pattern. */
  const PATTERNS := {"hourly", "daily", "weekly", "monthly"}

  function ParsePattern(kind: string, expression: string): (r: Result<Pattern, Error>)
    requires kind in PATTERNS
    ensures r.Ok? ==> r.value.Valid()
  {
    var expr := TrimSpace(expression);
    if kind == "hourly" then
      match ParseHourly(expr)
      case Some(t) => Ok(Hourly(t.0, t.1))
      case None => Err(BadMinute)
    else if kind == "daily" then
      match ParseHMS(expr)
      case Some(t) => Ok(Daily(t.0, t.1, t.2))
      case None => Err(BadTime)
    else
      var parts := Fields(expr);
      if |parts| != 2 then Err(if kind == "weekly" then BadWeekly else BadMonthly)
      else if kind == "weekly" then
        match (WeekdayNamed(parts[0]), ParseHMS(parts[1]))
        case (None, _) => Err(UnknownWeekday)
        case (Some(_), None) => Err(BadTime)
        case (Some(wd), Some(t)) => Ok(Weekly(wd, t.0, t.1, t.2))
      else
        match (DayNumber(parts[0]), ParseHMS(parts[1]))
        case (None, _) => Err(BadDay)
        case (Some(_), None) => Err(BadTime)
        case (Some(d), Some(t)) => Ok(Monthly(d, t.0, t.1, t.2))
  }

  function DayNumber(s: string): (r: Option<int>)
    ensures r.Some? ==> 1 <= r.value <= 31
  {
    match Atoi(s)
    case Some(d) => if 1 <= d <= 31 then Some(d) else None
    case None => None
  }

  function ParseInterval(expression: string): (r: Option<int>)
    ensures r.Some? ==> 60 <= r.value <= MAX_INT64
  {
    match Atoi(TrimSpace(expression))
    case Some(n) => if n < 60 then None else Some(n)
    case None => None
  }

  // ----- printing and parsing back -------------------------------------------

  function KindOf(p: Pattern): (kind: string)
    ensures kind in PATTERNS
  {
    match p
    case Hourly(_, _) => "hourly"
    case Daily(_, _, _) => "daily"
    case Weekly(_, _, _, _) => "weekly"
    case Monthly(_, _, _, _) => "monthly"
  }

  function PrintHMS(h: nat, m: nat, s: nat): string {
    Join([Itoa(h), Itoa(m), Itoa(s)], ':')
  }

  function Print(p: Pattern): string
    requires p.Valid()
  {
    match p
    case Hourly(m, s) => Join([Itoa(m), Itoa(s)], ':')
    case Daily(h, m, s) => PrintHMS(h, m, s)
    case Weekly(wd, h, m, s) => DAY_NAMES[wd] + " " + PrintHMS(h, m, s)
    case Monthly(d, h, m, s) => Itoa(d) + " " + PrintHMS(h, m, s)
  }

  /** A time of day is accepted with or without seconds exactly when it is in range;
      without them they are zero. */
  lemma WrittenTime(h: nat, m: nat, s: nat)
    requires h <= MAX_INT64 && m <= MAX_INT64 && s <= MAX_INT64
    ensures Solid(PrintHMS(h, m, s)) && Solid(Join([Itoa(h), Itoa(m)], ':'))
    ensures ParseHMS(PrintHMS(h, m, s)) == if h < 24 && m < 60 && s < 60 then Some((h, m, s)) else None
    ensures ParseHMS(Join([Itoa(h), Itoa(m)], ':')) == if h < 24 && m < 60 then Some((h, m, 0)) else None
  {
    hide Itoa, Atoi, Split, Join, TrimSpace, Solid;
    assert Numbers([h, m, s]) == [Itoa(h), Itoa(m), Itoa(s)] && Numbers([h, m]) == [Itoa(h), Itoa(m)];
    NumberParts([h, m, s]);
    NumberParts([h, m]);
  }

  /** So is the time within the hour. */
  lemma WrittenHourly(m: nat, s: nat)
    requires m <= MAX_INT64 && s <= MAX_INT64
    ensures var text := Join([Itoa(m), Itoa(s)], ':');
            TrimSpace(text) == text && ParseHourly(text) == if m < 60 && s < 60 then Some((m, s)) else None
    ensures ParseHourly(Itoa(m)) == if m < 60 then Some((m, 0)) else None
    ensures ParseHourly(PrintHMS(m, s, 0)) == None && ParseHMS(Itoa(m)) == None
  {
    hide Itoa, Atoi, Split, Join, TrimSpace, Solid;
    assert Numbers([m, s, 0]) == [Itoa(m), Itoa(s), Itoa(0)];
    NumberParts([m, s, 0]);
    assert Numbers([m, s]) == [Itoa(m), Itoa(s)] && Numbers([m]) == [Itoa(m)];
    NumberParts([m, s]);
    NumberParts([m]);
    JoinOne(Itoa(m));
  }

  lemma JoinOne(a: string)
    ensures Join([a], ':') == a
  {
  }

  /** Numbers joined by colons come apart again. */
  lemma NumberParts(ns: seq<nat>)
    requires ns != [] && forall i :: 0 <= i < |ns| ==> ns[i] <= MAX_INT64
    ensures var parts := Numbers(ns); var text := Join(parts, ':');
            && Solid(text) && TrimSpace(text) == text && Split(text, ':') == parts
            && forall i :: 0 <= i < |ns| ==> Atoi(parts[i]) == Some(ns[i])
  {
    var parts := Numbers(ns);
    hide Itoa, Atoi, Split, Join, TrimSpace, Solid;
    forall i | 0 <= i < |ns| ensures Solid(parts[i]) && ':' !in parts[i] && Atoi(parts[i]) == Some(ns[i]) {
      NumbersAreSolid(ns[i]);
      AtoiItoa(ns[i]);
    }
    SplitJoin(parts, ':');
    SolidJoin(parts, ':');
    SolidIsFixed(Join(parts, ':'));
  }

  lemma SolidIsFixed(s: string)
    requires Solid(s)
    ensures TrimSpace(s) == s
  {
    hide TrimSpace, IsSpace;
    TrimmedIsFixed(s);
  }

  function Numbers(ns: seq<nat>): (parts: seq<string>)
    ensures |parts| == |ns|
  {
    seq(|ns|, i requires 0 <= i < |ns| => Itoa(ns[i]))
  }

  /** A day of the month is accepted from 1 to 31, an interval from sixty seconds. */
  lemma WrittenNumber(n: nat)
    requires n <= MAX_INT64
    ensures DayNumber(Itoa(n)) == if 1 <= n <= 31 then Some(n) else None
    ensures ParseInterval(Itoa(n)) == if n < 60 then None else Some(n)
  {
    NumbersAreSolid(n);
    AtoiItoa(n);
    hide Itoa, Atoi;
    SolidIsFixed(Itoa(n));
  }

  lemma TwoFields(a: string, b: string)
    requires Solid(a) && Solid(b)
    ensures TrimSpace(a + " " + b) == a + " " + b && Fields(a + " " + b) == [a, b]
  {
    hide Solid, TrimSpace, Fields;
    FieldsOfJoin([a, b]);
    assert Join([a, b], ' ') == a + " " + b by { hide *; JoinTwo(a, ' ', b); }
  }

  /** Every valid pattern can be written as an expression that parses to it. */
  lemma ParsePrintedPattern(p: Pattern)
    requires p.Valid()
    ensures ParsePattern(KindOf(p), Print(p)) == Ok(p)
  {
    hide PrintHMS, ParseHMS, ParseHourly, Itoa, Atoi, Fields, Join, WeekdayNamed, TrimSpace;
    if p.Hourly? {
      WrittenHourly(p.minute, p.second);
    } else {
      var time := PrintHMS(p.hour, p.minute, p.second);
      WrittenTime(p.hour, p.minute, p.second);
      SolidIsFixed(time);
      match p
      case Daily(_, _, _) =>
      case Weekly(wd, _, _, _) =>
        DayNames(wd);
        TwoFields(DAY_NAMES[wd], time);
      case Monthly(d, _, _, _) =>
        NumbersAreSolid(d);
        AtoiItoa(d);
        TwoFields(Itoa(d), time);
    }
  }

  lemma DayNames(wd: nat)
    requires wd < 7
    ensures Solid(DAY_NAMES[wd]) && WeekdayNamed(DAY_NAMES[wd]) == Some(wd)
  {
    assert ToUpper(DAY_NAMES[wd]) == DAY_NAMES[wd];
  }

  /** Weekdays are named in either case, even with the letters whose capital is ASCII. */
  lemma LowerCaseNames(wd: nat)
    requires wd < 7
    ensures WeekdayNamed(["sun", "mon", "tue", "wed", "thu", "fri", "sat"][wd]) == Some(wd)
    ensures WeekdayNamed(['\U{17f}', 'u', 'n']) == Some(0) && WeekdayNamed(['f', 'r', '\U{131}']) == Some(5)
  {
    assert ToUpper(["sun", "mon", "tue", "wed", "thu", "fri", "sat"][wd]) == DAY_NAMES[wd];
    assert ToUpper(['\U{17f}', 'u', 'n']) == "SUN" && ToUpper(['f', 'r', '\U{131}']) == "FRI";
  }

  /** Which fault of an expression is reported. */
  lemma FirstFault(expression: string)
    ensures var parts := Fields(TrimSpace(expression));
            && (|parts| != 2 ==> ParsePattern("weekly", expression) == Err(BadWeekly)
                                 && ParsePattern("monthly", expression) == Err(BadMonthly))
            && (|parts| == 2 && WeekdayNamed(parts[0]).None? ==>
                  ParsePattern("weekly", expression) == Err(UnknownWeekday))
            && (|parts| == 2 && DayNumber(parts[0]).None? ==> ParsePattern("monthly", expression) == Err(BadDay))
            && (|parts| == 2 && ParseHMS(parts[1]).None? ==>
                  && ParsePattern("weekly", expression) in {Err(UnknownWeekday), Err(BadTime)}
                  && ParsePattern("monthly", expression) in {Err(BadDay), Err(BadTime)})
    ensures ParseHourly(TrimSpace(expression)).None? ==> ParsePattern("hourly", expression) == Err(BadMinute)
    ensures ParseHMS(TrimSpace(expression)).None? ==> ParsePattern("daily", expression) == Err(BadTime)
  {
    hide TrimSpace, Fields, WeekdayNamed, DayNumber, ParseHMS, ParseHourly;
  }

  // ----- the next run --------------------------------------------------------

  /** What `NextRun` answers: an error, no further run, or an instant. */
  ghost predicate IsNextRun(plan: Plan, a: Instant, r: Result<Option<Instant>, Error>) {
    var kind, expression := plan.kind, plan.expression;
    if kind == "once" then
      match Stamps.ParseOnce(expression)
      case None => r == Err(BadStamp)
      case Some(t) => r == Ok(if t > a then Some(t) else None)
    else if kind in PATTERNS then
      match ParsePattern(kind, expression)
      case Err(e) => r == Err(e)
      case Ok(p) => r.Ok? && r.value.Some? && IsPatternRun(p, a, r.value.value)
    else if kind == "fixed_interval" then
      match ParseInterval(expression)
      case None => r == Err(BadInterval)
      case Some(n) => r == Ok(Some(AfterInterval(n, a)))
    else if kind == "advanced_cron" then
      var expr := TrimSpace(expression);
      if r.Err? then r.error.CronError? && Cron.IsNextCron(expr, a, Err(r.error.error))
      else r.value.Some? && Cron.IsNextCron(expr, a, Ok(r.value.value))
    else r == Err(UnknownType)
  }

  ghost predicate IsPatternRun(p: Pattern, a: Instant, t: Instant)
    requires p.Valid()
  {
    if p.Monthly? then t == MonthlyFrom(p, a, MonthOf(DayOf(a))) else IsNext(p, a, t)
  }

  /** `after.Add(time.Duration(sec) * time.Second)`: the product is a 64-bit one. */
  function AfterInterval(seconds: int, a: Instant): Instant {
    a + Wrap64(seconds * SECOND)
  }

  method NextRun(plan: Plan, a: Instant) returns (r: Result<Option<Instant>, Error>)
    ensures IsNextRun(plan, a, r)
  {
    hide ParsePattern, ParseInterval, IsNext, Cron.IsNextCron, TrimSpace, Stamps.ParseOnce;
    var kind, expression := plan.kind, plan.expression;
    if kind == "once" {
      var at := Stamps.ParseOnce(expression);
      if at.None? { return Err(BadStamp); }
      return Ok(if at.value > a then at else None);
    }
    if kind in PATTERNS {
      var parsed := ParsePattern(kind, expression);
      if parsed.Err? { return Err(parsed.error); }
      var t := NextOf(parsed.value, a);
      return Ok(Some(t));
    }
    if kind == "fixed_interval" {
      var seconds := ParseInterval(expression);
      if seconds.None? { return Err(BadInterval); }
      return Ok(Some(AfterInterval(seconds.value, a)));
    }
    if kind == "advanced_cron" {
      var t := Cron.NextCron(TrimSpace(expression), a);
      return match t case Ok(v) => Ok(Some(v)) case Err(e) => Err(CronError(e));
    }
    r := Err(UnknownType);
  }

  method NextOf(p: Pattern, a: Instant) returns (t: Instant)
    requires p.Valid()
    ensures IsPatternRun(p, a, t)
  {
    hide IsNext, MonthlyFrom;
    match p {
      case Hourly(_, _) => t := NextHourly(p, a);
      case Daily(_, _, _) => t := NextDaily(p, a);
      case Weekly(_, _, _, _) => t := NextWeekly(p, a);
      case Monthly(_, _, _, _) => t := NextMonthly(p, a);
    }
  }

  // ----- written expressions on known days -----------------------------------

  /** "SUN h:m" to "SAT h:m" run on 1 to 7 February 2026. */
  lemma WeeklyTextRuns(wd: nat, h: nat, m: nat, r: Result<Option<Instant>, Error>)
    requires wd < 7 && h < 24 && m < 60
    requires var name := ["SUN", "MON", "TUE", "WED", "THU", "FRI", "SAT"][wd];
             IsNextRun(Plan("weekly", name + " " + Join([Itoa(h), Itoa(m)], ':')), Date(12 * 2026 + 1, 1, 0) - 1, r)
    ensures r == Ok(Some(Date(12 * 2026 + 1, 1 + wd, Clock(h, m, 0))))
  {
    hide ParseHMS, WeekdayNamed, TrimSpace, Fields, Date, Solid, Itoa, Join, IsNext, Clock;
    DayNames(wd);
    WrittenTime(h, m, 0);
    TwoFields(DAY_NAMES[wd], Join([Itoa(h), Itoa(m)], ':'));
    WeeklyInFebruary(Weekly(wd, h, m, 0), r.value.value);
  }

  /** "h:m" asked at the start of a day runs on that day. */
  lemma DailyTextRuns(month: int, day: int, h: nat, m: nat, r: Result<Option<Instant>, Error>)
    requires h < 24 && m < 60
    requires IsNextRun(Plan("daily", Join([Itoa(h), Itoa(m)], ':')), Date(month, day, 0) - 1, r)
    ensures r == Ok(Some(Date(month, day, Clock(h, m, 0))))
  {
    hide ParseHMS, TrimSpace, Date, Solid, Itoa, Join, IsNext, Clock;
    WrittenTime(h, m, 0);
    SolidIsFixed(Join([Itoa(h), Itoa(m)], ':'));
    DailyRuns(Daily(h, m, 0), month, day, r.value.value);
  }

  /** "m" asked at the start of an hour runs in that hour. */
  lemma HourlyTextRuns(start: Instant, m: nat, r: Result<Option<Instant>, Error>)
    requires start % HOUR == 0 && m < 60 && IsNextRun(Plan("hourly", Itoa(m)), start - 1, r)
    ensures r == Ok(Some(start + m * MINUTE))
  {
    hide ParseHourly, TrimSpace, Solid, Itoa, IsNext;
    WrittenHourly(m, 0);
    NumbersAreSolid(m);
    SolidIsFixed(Itoa(m));
    HourlyRuns(Hourly(m, 0), start, r.value.value);
  }

  /** "d h:m" asked at the start of a month that has the day runs on it. */
  lemma MonthlyTextRuns(month: int, d: nat, h: nat, m: nat, r: Result<Option<Instant>, Error>)
    requires 1 <= d <= MonthLength(month) && h < 24 && m < 60 && (d, h, m) != (1, 0, 0)
    requires IsNextRun(Plan("monthly", MonthlyText(d, h, m)), Date(month, 1, 0), r)
    ensures r == Ok(Some(Date(month, d, Clock(h, m, 0))))
  {
    MonthlyOffset(d, h, m);
    hide MonthLength, MonthOf, DayOf, Date, MonthlyFrom, ParsePattern, MonthlyText, IsNextRun, Offset, Clock;
    MonthlyTextParses(d, h, m);
    PatternRun(Plan("monthly", MonthlyText(d, h, m)), Monthly(d, h, m, 0), Date(month, 1, 0), r);
    MonthlyRuns(Monthly(d, h, m, 0), month);
  }

  lemma MonthlyOffset(d: nat, h: nat, m: nat)
    requires 1 <= d && (d, h, m) != (1, 0, 0)
    ensures 0 < d - 1 + Offset(Monthly(d, h, m, 0))
  {
  }

  function MonthlyText(d: nat, h: nat, m: nat): string {
    Itoa(d) + " " + Join([Itoa(h), Itoa(m)], ':')
  }

  lemma MonthlyTextParses(d: nat, h: nat, m: nat)
    requires 1 <= d <= 31 && h < 24 && m < 60
    ensures ParsePattern("monthly", MonthlyText(d, h, m)) == Ok(Monthly(d, h, m, 0))
  {
    hide ParseHMS, TrimSpace, Fields, Solid, Itoa, Join, DayNumber;
    WrittenTime(h, m, 0);
    WrittenNumber(d);
    NumbersAreSolid(d);
    TwoFields(Itoa(d), Join([Itoa(h), Itoa(m)], ':'));
  }

  lemma PatternRun(plan: Plan, p: Pattern, a: Instant, r: Result<Option<Instant>, Error>)
    requires plan.kind in PATTERNS && ParsePattern(plan.kind, plan.expression) == Ok(p) && IsNextRun(plan, a, r)
    ensures r.Ok? && r.value.Some? && IsPatternRun(p, a, r.value.value)
  {
    hide ParsePattern, IsPatternRun;
  }

  /** A date and time, to the minute or the second, runs once, if it is still to come. */
  lemma OnceTextRuns(t: Stamps.Stamp, a: Instant, r: Result<Option<Instant>, Error>)
    requires t.Valid() && t.year < 10000 && t.nano == 0
    requires IsNextRun(Plan("once", Stamps.PrintStamp(Stamps.ToSeconds(), t)), a, r)
             || (t.second == 0 && IsNextRun(Plan("once", Stamps.PrintStamp(Stamps.ToMinutes(), t)), a, r))
    ensures var at := Date(12 * t.year + t.month - 1, t.day, Clock(t.hour, t.minute, t.second));
            r == Ok(if at > a then Some(at) else None)
  {
    hide Stamps.PrintStamp, Stamps.ToSeconds, Stamps.ToMinutes, Stamps.ParseOnce, Date, Clock;
    Stamps.ParsePrintedOnce(t);
  }

  /** "0 4 * * 0" runs at four on Sunday 1 February 2026. */
  lemma CronTextRuns(r: Result<Option<Instant>, Error>)
    requires IsNextRun(Plan("advanced_cron", "0 4 * * 0"), Date(12 * 2026 + 1, 1, 0) - 1, r)
    ensures r == Ok(Some(Date(12 * 2026 + 1, 1, Clock(4, 0, 0))))
  {
    hide *;
    Cron.WeeklyText();
    CronRun(Plan("advanced_cron", "0 4 * * 0"), Date(12 * 2026 + 1, 1, 0) - 1, r);
    Cron.WeeklyRuns(0, 4, 0, CronAnswer(r));
    CronAnswered(r);
  }

  function CronAnswer(r: Result<Option<Instant>, Error>): Result<Instant, Cron.Error> {
    match r
    case Ok(Some(t)) => Ok(t)
    case Ok(None) => Err(Cron.NoMatch)
    case Err(CronError(e)) => Err(e)
    case Err(_) => Err(Cron.NoMatch)
  }

  lemma CronRun(plan: Plan, a: Instant, r: Result<Option<Instant>, Error>)
    requires plan.kind == "advanced_cron" && IsNextRun(plan, a, r)
    ensures Cron.IsNextCron(TrimSpace(plan.expression), a, CronAnswer(r))
  {
    hide Cron.IsNextCron, TrimSpace;
  }

  lemma CronAnswered(r: Result<Option<Instant>, Error>)
    ensures CronAnswer(r).Ok? ==> r == Ok(Some(CronAnswer(r).value))
  {
  }

  /** A fixed interval is kept exactly when it is at most 9223372036 seconds;
      beyond that the nanosecond product wraps. */
  lemma IntervalIsExactIff(seconds: int, a: Instant)
    requires 60 <= seconds <= MAX_INT64
    ensures AfterInterval(seconds, a) == a + seconds * SECOND <==> seconds <= 9223372036
  {
  }

  /** A fixed interval plans a later instant exactly when its nanoseconds, on 64 bits,
      are a positive number: beyond the longest duration that comes and goes. */
  lemma IntervalIsLaterIff(seconds: int, a: Instant)
    ensures AfterInterval(seconds, a) > a <==> 0 < (seconds * SECOND) % TWO_64 <= MAX_INT64
  {
  }

  /** An interval of ten thousand million seconds plans the next run in the past, one of
      twenty thousand million is not kept but still planned later. */
  lemma LongIntervalGoesBack(a: Instant)
    ensures ParseInterval(Itoa(10_000_000_000)) == Some(10_000_000_000)
    ensures AfterInterval(10_000_000_000, a) < a
    ensures a < AfterInterval(20_000_000_000, a) < a + 20_000_000_000 * SECOND
  {
    WrittenNumber(10_000_000_000);
    hide ParseInterval;
  }

  // ----- the stored second ---------------------------------------------------

  /** `Format(time.RFC3339)`: the whole second, which is what the table holds. */
  function Stored(t: Instant): int { t / SECOND }

  /** A `once` stamp has no fraction, and an interval comes to at least a second on 64 bits. */
  predicate Storable(plan: Plan) {
    && (plan.kind == "once" && Stamps.ParseOnce(plan.expression).Some? ==>
          Stamps.ParseOnce(plan.expression).value % SECOND == 0)
    && (plan.kind == "fixed_interval" && ParseInterval(plan.expression).Some? ==>
          SECOND <= (ParseInterval(plan.expression).value * SECOND) % TWO_64 <= MAX_INT64)
  }

  /** Truncated to the second, a next run is still strictly later than the clock. */
  lemma StoredIsLater(plan: Plan, a: Instant, r: Result<Option<Instant>, Error>)
    requires Storable(plan) && IsNextRun(plan, a, r) && r.Ok? && r.value.Some?
    ensures Stored(r.value.value) * SECOND > a
  {
    hide ParsePattern, ParseInterval, Fields, TrimSpace, Cron.ParseSets, Stamps.ParseOnce;
    var kind, expression, t := plan.kind, plan.expression, r.value.value;
    if kind == "once" {
      WholeSecond(t);
    } else if kind in PATTERNS {
      PatternRunIsWhole(ParsePattern(kind, expression).value, a, t);
      WholeSecond(t);
    } else if kind == "fixed_interval" {
      hide IsNext, Cron.IsNextCron;
      FloorLater(a, t);
    } else {
      assert t % MINUTE == 0 && a < t;
      MinuteIsWhole(t);
      WholeSecond(t);
    }
  }

  /** What is stored is later than the clock whatever the clock. */
  ghost predicate StoresLater(plan: Plan) {
    forall a, r :: IsNextRun(plan, a, r) && r.Ok? && r.value.Some? ==> Stored(r.value.value) * SECOND > a
  }

  /** A plan's stored next run is always later than the clock if and only if a `once`
      stamp has no fraction of a second and an interval wraps to a second or more. */
  lemma StorableIff(plan: Plan)
    ensures StoresLater(plan) <==> Storable(plan)
  {
    if Storable(plan) {
      forall a, r | IsNextRun(plan, a, r) && r.Ok? && r.value.Some? ensures Stored(r.value.value) * SECOND > a {
        StoredIsLater(plan, a, r);
      }
    } else {
      hide ParsePattern, ParseInterval, Stamps.ParseOnce;
      var t := if plan.kind == "once" then Stamps.ParseOnce(plan.expression).value
               else AfterInterval(ParseInterval(plan.expression).value, 0);
      var a := if plan.kind == "once" then t - 1 else 0;
      assert IsNextRun(plan, a, Ok(Some(t)));
      assert Stored(t) * SECOND <= a;
    }
  }

  /** A stamp with a fraction of a second, such as ".5" after the seconds, is accepted
      and stored early. */
  lemma FractionIsStoredEarly(t: Stamps.Stamp, tail: string)
    requires t.Valid() && t.year < 10000 && t.nano == 0
    requires tail != "" && IsDigit(tail[|tail| - 1])
    requires Stamps.TakeFraction(tail).1 == "" && 0 < Stamps.TakeFraction(tail).0 < SECOND
    ensures !Storable(Plan("once", Stamps.PrintStamp(Stamps.ToSeconds(), t) + tail))
  {
    hide Stamps.ParseOnce, Stamps.PrintStamp, Stamps.ToSeconds, Stamps.Stamp.ToInstant, Stamps.TakeFraction;
    Stamps.FractionIsRead(t, tail);
    NotWhole(t, Stamps.TakeFraction(tail).0);
  }

  /** "2026-02-01 10:00:00.5" is such a stamp. */
  lemma HalfSecondIsStoredEarly()
    ensures var stamp := Stamps.Stamp(2026, 2, 1, 10, 0, 0, 0);
            var text := Stamps.PrintStamp(Stamps.ToSeconds(), stamp) + ['.', Stamps.DigitChar(5)];
            !Storable(Plan("once", text))
  {
    Stamps.OneDecimal(5);
    FractionIsStoredEarly(Stamps.Stamp(2026, 2, 1, 10, 0, 0, 0), ['.', Stamps.DigitChar(5)]);
    hide Storable, Stamps.PrintStamp, Stamps.ToSeconds;
  }

  lemma NotWhole(t: Stamps.Stamp, nano: int)
    requires t.nano == 0 && 0 < nano < SECOND
    ensures (t.ToInstant() + nano) % SECOND != 0
  {
    var first := FirstDay(12 * t.year + t.month - 1);
    hide FirstDay;
    RestOfSecond((first + t.day - 1) * 86400 + t.hour * 3600 + t.minute * 60 + t.second, nano);
  }

  lemma RestOfSecond(n: int, nano: int)
    requires 0 < nano < SECOND
    ensures (n * SECOND + nano) % SECOND == nano
  {
  }

  /** An interval that does not wrap below zero. */
  predicate Forward(plan: Plan) {
    plan.kind == "fixed_interval" && ParseInterval(plan.expression).Some? ==>
      (ParseInterval(plan.expression).value * SECOND) % TWO_64 <= MAX_INT64
  }

  /** Nothing is stored before the second of the clock. */
  lemma StoredIsNotEarlier(plan: Plan, a: Instant, r: Result<Option<Instant>, Error>)
    requires Forward(plan) && IsNextRun(plan, a, r) && r.Ok? && r.value.Some?
    ensures Stored(a) <= Stored(r.value.value)
  {
    hide ParsePattern, ParseInterval, Fields, TrimSpace, Cron.ParseSets, Stamps.ParseOnce;
    if plan.kind in PATTERNS {
      PatternRunIsWhole(ParsePattern(plan.kind, plan.expression).value, a, r.value.value);
    }
    assert a <= r.value.value;
    hide IsNextRun, Forward;
  }

  ghost predicate StoresNotEarlier(plan: Plan) {
    forall a, r :: IsNextRun(plan, a, r) && r.Ok? && r.value.Some? ==> Stored(a) <= Stored(r.value.value)
  }

  /** A wrapped interval plans the past. */
  lemma NotForwardGoesBack(plan: Plan, r: Result<Option<Instant>, Error>)
    requires !Forward(plan) && IsNextRun(plan, 0, r)
    ensures r.Ok? && r.value.Some? && Stored(r.value.value) < 0
  {
    hide ParseInterval, ParsePattern, Stamps.ParseOnce, TrimSpace, IsPatternRun, Cron.IsNextCron;
    assert r == Ok(Some(AfterInterval(ParseInterval(plan.expression).value, 0)));
    hide IsNextRun;
  }

  /** The stored next run is never before the clock's second, for every clock, if and
      only if an interval does not wrap below zero. */
  lemma ForwardIff(plan: Plan)
    ensures StoresNotEarlier(plan) <==> Forward(plan)
  {
    if Forward(plan) {
      forall a, r | IsNextRun(plan, a, r) && r.Ok? && r.value.Some? ensures Stored(a) <= Stored(r.value.value) {
        StoredIsNotEarlier(plan, a, r);
      }
    } else {
      hide ParseInterval;
      var t := AfterInterval(ParseInterval(plan.expression).value, 0);
      assert IsNextRun(plan, 0, Ok(Some(t))) && Stored(t) < Stored(0);
    }
  }

  lemma PatternRunIsWhole(p: Pattern, a: Instant, t: Instant)
    requires p.Valid() && IsPatternRun(p, a, t)
    ensures a < t && t % SECOND == 0
  {
    hide MonthlyFrom;
    assert a < t && Matches(p, t);
    ClockFields(t, HourOf(t), p.minute, p.second);
    assert NanoOf(t) == 0;
    NanoWithinSecond(t);
  }

  lemma WholeSecond(t: Instant)
    requires t % SECOND == 0
    ensures Stored(t) * SECOND == t
  {
  }

  lemma MinuteIsWhole(t: Instant)
    requires t % MINUTE == 0
    ensures t % SECOND == 0
  {
  }

  lemma FloorLater(a: Instant, t: Instant)
    requires a + SECOND <= t
    ensures Stored(t) * SECOND > a
  {
  }
}
