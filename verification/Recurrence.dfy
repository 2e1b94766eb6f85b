/** When a schedule runs next: the loops of `NextRun` over the calendar. */
module Recurrence {
  import opened Calendar

  /** A parsed calendar expression. */
  datatype Pattern =
    | Hourly(minute: int, second: int)
    | Daily(hour: int, minute: int, second: int)
    | Weekly(weekday: int, hour: int, minute: int, second: int)
    | Monthly(day: int, hour: int, minute: int, second: int)
  {
    /** The ranges the expression parsers let through. */
    predicate Valid() {
      && 0 <= minute < 60 && 0 <= second < 60
      && (!Hourly? ==> 0 <= hour < 24)
      && (Weekly? ==> 0 <= weekday < 7)
      && (Monthly? ==> 1 <= day <= 31)
    }
  }

  /** What an expression means: the instants it names, field by field. */
  predicate Matches(p: Pattern, t: Instant) {
    && MinuteOf(t) == p.minute && SecondOf(t) == p.second && NanoOf(t) == 0
    && (!p.Hourly? ==> HourOf(t) == p.hour)
    && (p.Weekly? ==> Weekday(t) == p.weekday)
    && (p.Monthly? ==> DayOfMonth(t) == p.day)
  }

  /** `t` is a run strictly after `a`, and no run lies between them. */
  ghost predicate IsNext(p: Pattern, a: Instant, t: Instant) {
    a < t && Matches(p, t) && forall u :: a < u < t ==> !Matches(p, u)
  }

  /** The place of a run within its hour or day. */
  function Offset(p: Pattern): int {
    if p.Hourly? then Clock(0, p.minute, p.second) else Clock(p.hour, p.minute, p.second)
  }

  lemma OffsetOfMatch(p: Pattern, t: Instant)
    requires p.Valid()
    ensures p.Hourly? ==> (Matches(p, t) <==> t % HOUR == Offset(p))
    ensures p.Daily? ==> (Matches(p, t) <==> TimeOfDay(t) == Offset(p))
    ensures p.Weekly? ==> (Matches(p, t) <==> TimeOfDay(t) == Offset(p) && Weekday(t) == p.weekday)
    ensures p.Monthly? ==> (Matches(p, t) <==> TimeOfDay(t) == Offset(p) && DayOfMonth(t) == p.day)
    ensures 0 <= Offset(p) < (if p.Hourly? then HOUR else DAY)
  {
    ClockFields(t, if p.Hourly? then 0 else p.hour, p.minute, p.second);
    HourWithinDay(t);
    hide HourOf, MinuteOf, SecondOf, NanoOf, TimeOfDay, DayOfMonth, Weekday;
  }

  /** The start of the day of `a`, moved to the run's time of day. */
  function Today(p: Pattern, a: Instant): Instant {
    Date(MonthOf(DayOf(a)), DayOfMonth(a), Offset(p))
  }

  /** `t.AddDate(0, 0, 1)`. */
  function NextDay(t: Instant): Instant {
    Date(MonthOf(DayOf(t)), DayOfMonth(t) + 1, TimeOfDay(t))
  }

  lemma NextDayIsDayLater(t: Instant)
    ensures NextDay(t) == t + DAY
    ensures DayOf(NextDay(t)) == DayOf(t) + 1 && TimeOfDay(NextDay(t)) == TimeOfDay(t)
  {
    DateRoundTrip(t);
    hide MonthOf, FirstDay, DayOfMonth;
  }

  lemma TodayIsToday(p: Pattern, a: Instant)
    requires p.Valid()
    ensures DayOf(Today(p, a)) == DayOf(a)
    ensures !p.Hourly? ==> TimeOfDay(Today(p, a)) == Offset(p)
    ensures a - DAY < Today(p, a) < a + DAY
  {
    OffsetOfMatch(p, a);
    DateParts(MonthOf(DayOf(a)), DayOfMonth(a), Offset(p));
    DaysOrdered(a, Today(p, a));
    hide MonthOf, FirstDay, TimeOfDay, DayOf, Date, Offset;
  }

  /** Runs of one expression recur no closer than its period. */
  lemma MatchesApart(p: Pattern, u: Instant, t: Instant)
    requires p.Valid() && u < t && Matches(p, u)
    requires if p.Hourly? then t % HOUR == Offset(p) else TimeOfDay(t) == Offset(p)
    ensures u <= t - (if p.Hourly? then HOUR else DAY)
  {
    OffsetOfMatch(p, u);
    hide Offset, Matches;
    SameOffset(u, t, if p.Hourly? then HOUR else DAY);
  }

  lemma SameOffset(u: int, t: int, period: int)
    requires period in {HOUR, DAY} && u < t && u % period == t % period
    ensures u <= t - period
  {
  }

  // ----- hourly, daily and weekly --------------------------------------------

  method NextHourly(p: Pattern, a: Instant) returns (t: Instant)
    requires p.Hourly? && p.Valid()
    ensures IsNext(p, a, t) && t <= a + HOUR
  {
    hide MonthOf, DayOfMonth, DayOf, FirstDay, Offset, Matches, HourOf, Date;
    t := Date(MonthOf(DayOf(a)), DayOfMonth(a), HourOf(a) * HOUR + Offset(p));
    HourStart(p, a);
    while t <= a
      invariant t % HOUR == Offset(p) && a - HOUR < t <= a + HOUR
      decreases a - t
    {
      t := t + HOUR;
    }
    OffsetOfMatch(p, t);
    forall u | a < u < t ensures !Matches(p, u) {
      if Matches(p, u) { MatchesApart(p, u, t); }
    }
  }

  lemma HourStart(p: Pattern, a: Instant)
    requires p.Hourly? && p.Valid()
    ensures var t := Date(MonthOf(DayOf(a)), DayOfMonth(a), HourOf(a) * HOUR + Offset(p));
            t % HOUR == Offset(p) && a - HOUR < t < a + HOUR
  {
    hide MonthOf, FirstDay, DayOfMonth, Offset, DayOf, TimeOfDay;
    OffsetOfMatch(p, a);
    DateRoundTrip(a);
    HourWithinDay(a);
    var t := Date(MonthOf(DayOf(a)), DayOfMonth(a), HourOf(a) * HOUR + Offset(p));
    assert t == a - TimeOfDay(a) + HourOf(a) * HOUR + Offset(p);
    hide Date;
    assert TimeOfDay(a) == HourOf(a) * HOUR + TimeOfDay(a) % HOUR;
    HourMultiple(a, Offset(p));
  }

  lemma HourMultiple(a: int, offset: int)
    requires 0 <= offset < HOUR
    ensures (a - a % HOUR + offset) % HOUR == offset
  {
  }

  method NextDaily(p: Pattern, a: Instant) returns (t: Instant)
    requires p.Daily? && p.Valid()
    ensures IsNext(p, a, t) && t <= a + DAY
  {
    hide Today, NextDay, Offset, Matches, TimeOfDay;
    t := Today(p, a);
    TodayIsToday(p, a);
    while t <= a
      invariant TimeOfDay(t) == Offset(p) && a - DAY < t <= a + DAY
      decreases a - t
    {
      NextDayIsDayLater(t);
      t := NextDay(t);
    }
    OffsetOfMatch(p, t);
    forall u | a < u < t ensures !Matches(p, u) {
      if Matches(p, u) { MatchesApart(p, u, t); }
    }
  }

  method NextWeekly(p: Pattern, a: Instant) returns (t: Instant)
    requires p.Weekly? && p.Valid()
    ensures IsNext(p, a, t)
  {
    hide Today, NextDay, Offset, Matches, TimeOfDay, Weekday, DayOf, NoneUpTo, DaysUntil;
    t := Today(p, a);
    TodayIsToday(p, a);
    FirstWeekDay(p, a, t);
    while Weekday(t) != p.weekday || t <= a
      invariant TimeOfDay(t) == Offset(p) && a - DAY < t
      invariant NoneUpTo(p, a, t)
      decreases (if t <= a then 7 else 0) + DaysUntil(Weekday(t), p.weekday)
    {
      ghost var prev := t;
      NextDayIsDayLater(t);
      t := NextDay(t);
      WeekdayAdvances(prev, t);
      OneDayCloser(Weekday(prev), p.weekday);
      NextWeekDay(p, a, prev);
    }
    WeekDayFound(p, a, t);
  }

  /** No run lies between the two. */
  ghost predicate NoneUpTo(p: Pattern, a: Instant, t: Instant) {
    forall u :: a < u < t ==> !Matches(p, u)
  }

  lemma FirstWeekDay(p: Pattern, a: Instant, t: Instant)
    requires p.Weekly? && p.Valid() && TimeOfDay(t) == Offset(p) && t < a + DAY
    ensures NoneUpTo(p, a, t)
  {
    hide Matches, TimeOfDay, Offset;
    forall u | a < u < t ensures !Matches(p, u) {
      if Matches(p, u) { MatchesApart(p, u, t); }
    }
  }

  /** One more day on which it does not run. */
  lemma NextWeekDay(p: Pattern, a: Instant, t: Instant)
    requires p.Weekly? && p.Valid() && TimeOfDay(t) == Offset(p) && NoneUpTo(p, a, t)
    requires (Weekday(t) != p.weekday || t <= a) && TimeOfDay(t + DAY) == Offset(p)
    ensures NoneUpTo(p, a, t + DAY)
  {
    OffsetOfMatch(p, t);
    hide Matches, TimeOfDay, Offset, Weekday;
    forall u | a < u < t + DAY ensures !Matches(p, u) {
      if Matches(p, u) { MatchesApart(p, u, t + DAY); }
    }
  }

  lemma WeekDayFound(p: Pattern, a: Instant, t: Instant)
    requires p.Weekly? && p.Valid() && TimeOfDay(t) == Offset(p) && NoneUpTo(p, a, t)
    requires Weekday(t) == p.weekday && a < t
    ensures IsNext(p, a, t)
  {
    OffsetOfMatch(p, t);
    hide Matches, TimeOfDay, Offset, Weekday;
  }

  lemma OneDayCloser(w: int, to: int)
    requires 0 <= w < 7 && 0 <= to < 7
    ensures 0 <= DaysUntil(w, to) < 7 && 0 <= DaysUntil((w + 1) % 7, to) < 7
    ensures w != to ==> DaysUntil((w + 1) % 7, to) < DaysUntil(w, to)
  {
  }

  /** Days from weekday `w` forward to weekday `to`. */
  function DaysUntil(w: int, to: int): int {
    (to - w) % 7
  }

  /** At the start of an hour the next hourly run is in that hour ... */
  lemma HourlyRuns(p: Pattern, start: Instant, t: Instant)
    requires p.Hourly? && p.Valid() && start % HOUR == 0 && IsNext(p, start - 1, t)
    ensures t == start + p.minute * MINUTE + p.second * SECOND
  {
    var u := start + Offset(p);
    OffsetOfMatch(p, u);
    OffsetOfMatch(p, t);
    hide Matches;
    OffsetInHour(start, Offset(p), t);
    assert Offset(p) == p.minute * MINUTE + p.second * SECOND;
    hide Offset;
  }

  lemma OffsetInHour(start: Instant, offset: int, t: Instant)
    requires start % HOUR == 0 && 0 <= offset < HOUR
    ensures (start + offset) % HOUR == offset
    ensures t % HOUR == offset && start <= t ==> start + offset <= t
  {
    HourIs(start + offset, start / HOUR, offset);
    if t % HOUR == offset && start <= t { assert t / HOUR >= start / HOUR; }
  }

  /** ... and at the start of a day the next daily run is on that day. */
  lemma DailyRuns(p: Pattern, month: int, day: int, t: Instant)
    requires p.Daily? && p.Valid() && IsNext(p, Date(month, day, 0) - 1, t)
    ensures t == Date(month, day, Clock(p.hour, p.minute, p.second))
  {
    var start, u := Date(month, day, 0), Date(month, day, Offset(p));
    OffsetOfMatch(p, u);
    OffsetOfMatch(p, t);
    DateParts(month, day, 0);
    DateParts(month, day, Offset(p));
    DatesApart(month, day, 0, month, day, Offset(p));
    DaysOrdered(t, start);
    SameTimeOfDay(t, u);
    hide Matches, Date, DayOf, TimeOfDay;
  }

  lemma SameTimeOfDay(t: Instant, u: Instant)
    requires TimeOfDay(t) == TimeOfDay(u)
    ensures DayOf(u) <= DayOf(t) ==> u <= t
  {
  }

  /** From the end of Saturday 31 January 2026 on, weekday 0 to 6 runs on 1 to 7 February. */
  lemma WeeklyInFebruary(p: Pattern, t: Instant)
    requires p.Weekly? && p.Valid() && IsNext(p, Date(12 * 2026 + 1, 1, 0) - 1, t)
    ensures t == Date(12 * 2026 + 1, 1 + p.weekday, Clock(p.hour, p.minute, p.second))
  {
    var u := Date(12 * 2026 + 1, 1 + p.weekday, Offset(p));
    OffsetOfMatch(p, u);
    OffsetOfMatch(p, t);
    FebruaryWeek(p.weekday, Offset(p), t);
    hide Weekday, TimeOfDay, Date, Matches;
  }

  // ----- monthly -------------------------------------------------------------

  /** The attempt for one month; a day it lacks overflows into the next month. */
  function Attempt(p: Pattern, month: int): Instant
    requires p.Monthly?
  {
    Date(month, p.day, Offset(p))
  }

  lemma AttemptFields(p: Pattern, month: int)
    requires p.Monthly? && p.Valid()
    ensures var t := Attempt(p, month);
            && TimeOfDay(t) == Offset(p)
            && MonthOf(DayOf(t)) == (if p.day <= MonthLength(month) then month else month + 1)
            && (DayOfMonth(t) == p.day <==> p.day <= MonthLength(month))
            && (Matches(p, t) <==> p.day <= MonthLength(month))
  {
    var t := Attempt(p, month);
    OffsetOfMatch(p, t);
    DateParts(month, p.day, Offset(p));
    hide Offset, Matches;
    if p.day <= MonthLength(month) {
      FieldsRoundTrip(month, p.day, Offset(p));
    } else {
      OverflowingFields(month, p.day, Offset(p));
    }
    hide *;
  }

  /** Attempts of later months are later, even across an overflow. */
  lemma AttemptsIncrease(p: Pattern, m0: int, m1: int)
    requires p.Monthly? && p.Valid() && m0 < m1
    ensures Attempt(p, m0) < Attempt(p, m1)
  {
    MonthsIncrease(m0, m1);
    hide FirstDay, Offset;
  }

  /** A month after that of `a` is attempted after `a`. */
  lemma AttemptAfter(p: Pattern, a: Instant, month: int)
    requires p.Monthly? && p.Valid() && MonthOf(DayOf(a)) < month
    ensures a < Attempt(p, month)
  {
    OffsetOfMatch(p, a);
    MonthsIncrease(MonthOf(DayOf(a)) + 1, month);
    DateParts(month, p.day, Offset(p));
    DaysOrdered(a, Attempt(p, month));
    hide FirstDay, Offset, MonthOf, DayOf, TimeOfDay, Date;
  }

  /** Every run is the attempt of its own month. */
  lemma MatchIsAttempt(p: Pattern, u: Instant)
    requires p.Monthly? && p.Valid() && Matches(p, u)
    ensures u == Attempt(p, MonthOf(DayOf(u))) && p.day <= MonthLength(MonthOf(DayOf(u)))
  {
    OffsetOfMatch(p, u);
    DateRoundTrip(u);
    hide Offset, Matches;
  }

  /** How many attempts a month too short for the day still costs: the overflow
      makes the loop look at every second month, and each such walk reaches a
      month of 31 days (February, April, June, August; September, November, January). */
  function ShortMonths(p: Pattern, month: int): nat
    requires p.Monthly?
  {
    if p.day <= MonthLength(month) then 0
    else
      var m := month % 12;
      if m == 1 then 3 else if m == 3 || m == 8 then 2 else 1
  }

  lemma ShortMonthsShrink(p: Pattern, month: int)
    requires p.Monthly? && p.Valid() && MonthLength(month) < p.day
    ensures ShortMonths(p, month + 2) < ShortMonths(p, month)
    ensures MonthLength(month + 1) == 31
  {
  }

  /** The instant the `monthly` loop stops at when it starts by attempting `month`. */
  function MonthlyFrom(p: Pattern, a: Instant, month: int): (t: Instant)
    requires p.Monthly? && p.Valid() && MonthOf(DayOf(a)) <= month
    ensures a < t && Matches(p, t) && month <= MonthOf(DayOf(t))
    decreases if Attempt(p, month) <= a then 5 else ShortMonths(p, month)
  {
    var t := Attempt(p, month);
    AttemptFields(p, month);
    if t > a && DayOfMonth(t) == p.day then t
    else
      var next := MonthOf(DayOf(t)) + 1;
      AttemptAfter(p, a, next);
      StepTerminates(p, a, month);
      MonthlyFrom(p, a, next)
  }

  lemma StepTerminates(p: Pattern, a: Instant, month: int)
    requires p.Monthly? && p.Valid() && MonthOf(DayOf(a)) <= month
    requires Attempt(p, month) <= a || MonthLength(month) < p.day
    ensures ShortMonths(p, month) < 5
    ensures var next := MonthOf(DayOf(Attempt(p, month))) + 1;
            ShortMonths(p, next) < if Attempt(p, month) <= a then 5 else ShortMonths(p, month)
  {
    hide Attempt, MonthOf, DayOf, MonthLength, Matches, Offset, TimeOfDay, DayOfMonth, IsLeap;
    AttemptFields(p, month);
    if a < Attempt(p, month) { ShortMonthsShrink(p, month); }
  }

  method NextMonthly(p: Pattern, a: Instant) returns (t: Instant)
    requires p.Monthly? && p.Valid()
    ensures t == MonthlyFrom(p, a, MonthOf(DayOf(a)))
  {
    hide MonthOf, DayOfMonth, DayOf, FirstDay, Offset, Matches, Date, ShortMonths, MonthLength;
    ghost var month := MonthOf(DayOf(a));
    t := Date(MonthOf(DayOf(a)), p.day, Offset(p));
    while t <= a || DayOfMonth(t) != p.day
      invariant MonthOf(DayOf(a)) <= month && t == Attempt(p, month)
      invariant MonthlyFrom(p, a, month) == MonthlyFrom(p, a, MonthOf(DayOf(a)))
      decreases if t <= a then 5 else ShortMonths(p, month)
    {
      AttemptFields(p, month);
      AttemptAfter(p, a, MonthOf(DayOf(t)) + 1);
      StepTerminates(p, a, month);
      month := MonthOf(DayOf(t)) + 1;
      t := Date(MonthOf(DayOf(t)) + 1, p.day, Offset(p));
    }
  }

  /** The first attempt to be made after `a` is of a month that has the day. */
  predicate FirstAttemptFits(p: Pattern, a: Instant)
    requires p.Monthly?
  {
    var month := MonthOf(DayOf(a));
    && p.day <= MonthLength(month)
    && (a < Attempt(p, month) || p.day <= MonthLength(month + 1))
  }

  /** The `monthly` result is the least run exactly when the first attempt after
      `a` does not overflow.  Otherwise the month overflowed into had the day, and
      the loop has stepped past it. */
  lemma MonthlyLeastIff(p: Pattern, a: Instant)
    requires p.Monthly? && p.Valid()
    ensures IsNext(p, a, MonthlyFrom(p, a, MonthOf(DayOf(a)))) <==> FirstAttemptFits(p, a)
  {
    var month := MonthOf(DayOf(a));
    var t := MonthlyFrom(p, a, month);
    if FirstAttemptFits(p, a) {
      MonthlyFits(p, a);
    } else {
      MonthlySkips(p, a);
    }
  }

  lemma MonthlyFits(p: Pattern, a: Instant)
    requires p.Monthly? && p.Valid() && FirstAttemptFits(p, a)
    ensures IsNext(p, a, MonthlyFrom(p, a, MonthOf(DayOf(a))))
  {
    hide MonthOf, DayOfMonth, DayOf, FirstDay, Offset, Matches, Date, ShortMonths, MonthLength, Attempt;
    var month := MonthOf(DayOf(a));
    var t := MonthlyFrom(p, a, month);
    AttemptFields(p, month);
    AttemptFields(p, month + 1);
    AttemptAfter(p, a, month + 1);
    forall u | a < u < t ensures !Matches(p, u) {
      if Matches(p, u) {
        MatchIsAttempt(p, u);
        MonthsOrdered(a, u);
        var m := MonthOf(DayOf(u));
        if month + 1 < m { AttemptsIncrease(p, month + 1, m); }
        if month < m { AttemptsIncrease(p, month, m); }
      }
    }
  }

  lemma MonthlySkips(p: Pattern, a: Instant)
    requires p.Monthly? && p.Valid() && !FirstAttemptFits(p, a)
    ensures !IsNext(p, a, MonthlyFrom(p, a, MonthOf(DayOf(a))))
  {
    hide MonthOf, DayOfMonth, DayOf, FirstDay, Offset, Matches, Date, ShortMonths, MonthLength, Attempt;
    var month := MonthOf(DayOf(a));
    AttemptFields(p, month);
    var short := if p.day <= MonthLength(month) then month + 1 else month;
    var t := MonthlyFrom(p, a, short);
    AttemptFields(p, short);
    ShortMonthsShrink(p, short);
    // The month after the short one has the day, but the loop resumes beyond it.
    var u := Attempt(p, short + 1);
    AttemptFields(p, short + 1);
    AttemptAfter(p, a, short + 1);
    AttemptAfter(p, a, short + 2);
    MatchIsAttempt(p, t);
    AttemptsIncrease(p, short + 1, MonthOf(DayOf(t)));
    if short == month + 1 { AttemptAfter(p, a, short); }
  }

  /** Up to the 28th every month has the day. */
  lemma MonthlyLeastTo28(p: Pattern, a: Instant)
    requires p.Monthly? && p.Valid() && p.day <= 28
    ensures IsNext(p, a, MonthlyFrom(p, a, MonthOf(DayOf(a))))
  {
    MonthlyLeastIff(p, a);
  }

  /** At the start of a month that has the day, the monthly run is on it, unless it is
      that very moment. */
  lemma MonthlyRuns(p: Pattern, month: int)
    requires p.Monthly? && p.Valid() && p.day <= MonthLength(month) && 0 < p.day - 1 + Offset(p)
    ensures MonthlyFrom(p, Date(month, 1, 0), MonthOf(DayOf(Date(month, 1, 0)))) ==
            Date(month, p.day, Clock(p.hour, p.minute, p.second))
  {
    FieldsRoundTrip(month, 1, 0);
    AttemptFields(p, month);
    OffsetOfMatch(p, 0);
    DatesApart(month, 1, 0, month, p.day, Offset(p));
    hide FirstDay, MonthOf, DayOf, Date, Matches, MonthLength;
  }

  /** "31 00:00" asked on 1 February 2026 gives 31 August, not 31 March. */
  lemma MonthlySkipsMarch()
    ensures var p, a := Monthly(31, 0, 0, 0), Date(12 * 2026 + 1, 1, 0);
            && MonthlyFrom(p, a, MonthOf(DayOf(a))) == Date(12 * 2026 + 7, 31, 0)
            && a < Date(12 * 2026 + 2, 31, 0) < Date(12 * 2026 + 7, 31, 0)
            && Matches(p, Date(12 * 2026 + 2, 31, 0))
  {
    hide MonthLength, Date, MonthOf, DayOf, FirstDay, DayOfMonth, TimeOfDay, Matches, Offset;
    var p, feb := Monthly(31, 0, 0, 0), 12 * 2026 + 1;
    var a := Date(feb, 1, 0);
    Months2026();
    FieldsRoundTrip(feb, 1, 0);
    MidnightAttempt(p, feb + 1);
    MidnightAttempt(p, feb + 6);
    MonthlyStep(p, a, feb + 4);
    MonthlyStep(p, a, feb + 2);
    MonthlyStep(p, a, feb);
    AttemptFields(p, feb + 1);
    AttemptFields(p, feb + 6);
    AttemptAfter(p, a, feb + 1);
    AttemptAfter(p, a, feb + 6);
    AttemptsIncrease(p, feb + 1, feb + 6);
  }

  lemma Months2026()
    ensures var feb := 12 * 2026 + 1;
            && MonthLength(feb) == 28 && MonthLength(feb + 1) == 31 && MonthLength(feb + 2) == 30
            && MonthLength(feb + 4) == 30 && MonthLength(feb + 6) == 31
  {
  }

  lemma MidnightAttempt(p: Pattern, month: int)
    requires p == Monthly(31, 0, 0, 0)
    ensures Attempt(p, month) == Date(month, 31, 0)
  {
  }

  lemma MonthlyStep(p: Pattern, a: Instant, month: int)
    requires p.Monthly? && p.Valid() && MonthOf(DayOf(a)) <= month
    requires MonthLength(month) < p.day
    ensures MonthlyFrom(p, a, month) == MonthlyFrom(p, a, month + 2)
  {
    AttemptFields(p, month);
  }
}
