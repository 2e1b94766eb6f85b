/** The proleptic Gregorian calendar in UTC, as Go's `time` package lays it out.
    An instant is a count of nanoseconds since 0001-01-01T00:00:00Z; a day is an
    instant divided by DAY.  A month is named by the single number
    12 * year + (month - 1), so that the overflow of `time.Date(y, m+1, ...)`
    into the next year is plain addition. */
module Calendar {
  const SECOND := 1_000_000_000
  const MINUTE := 60 * SECOND
  const HOUR := 60 * MINUTE
  const DAY := 24 * HOUR

  type Instant = int

  predicate IsLeap(year: int) {
    year % 4 == 0 && (year % 100 != 0 || year % 400 == 0)
  }

  function YearLength(year: int): int {
    if IsLeap(year) then 366 else 365
  }

  function DaysBeforeYear(year: int): int {
    var p := year - 1;
    365 * p + p / 4 - p / 100 + p / 400
  }

  /** A year counted by whole 400-, 100- and 4-year cycles since year 1. */
  function YearInCycles(a: int, b: int, c: int, e: int): int {
    400 * a + 100 * b + 4 * c + e + 1
  }

  predicate CycleParts(b: int, c: int, e: int) {
    0 <= b < 4 && 0 <= c < 25 && 0 <= e < 4
  }

  lemma DaysInCycles(a: int, b: int, c: int, e: int)
    requires CycleParts(b, c, e)
    ensures DaysBeforeYear(YearInCycles(a, b, c, e)) == 146097 * a + 36524 * b + 1461 * c + 365 * e
    ensures IsLeap(YearInCycles(a, b, c, e)) <==> e == 3 && (c < 24 || b == 3)
  {
    var p := 400 * a + 100 * b + 4 * c + e;
    QuotientIs(p, 4, 100 * a + 25 * b + c, e);
    QuotientIs(p, 100, 4 * a + b, 4 * c + e);
    QuotientIs(p, 400, a, 100 * b + 4 * c + e);
    LeapInCycles(a, b, c, e);
  }

  lemma QuotientIs(n: int, d: int, q: int, r: int)
    requires d in {4, 100, 400} && 0 <= r < d && n == q * d + r
    ensures n / d == q && n % d == r
  {
    if d == 4 {
      assert n == 4 * q + r;
    } else if d == 100 {
      assert n == 100 * q + r;
    } else {
      assert n == 400 * q + r;
    }
  }

  lemma LeapInCycles(a: int, b: int, c: int, e: int)
    requires CycleParts(b, c, e)
    ensures IsLeap(YearInCycles(a, b, c, e)) <==> e == 3 && (c < 24 || b == 3)
  {
    var year := YearInCycles(a, b, c, e);
    if e < 3 {
      QuotientIs(year, 4, 100 * a + 25 * b + c, e + 1);
    } else {
      QuotientIs(year, 4, 100 * a + 25 * b + c + 1, 0);
      if c < 24 {
        QuotientIs(year, 100, 4 * a + b, 4 * c + 4);
      } else {
        QuotientIs(year, 100, 4 * a + b + 1, 0);
        if b < 3 {
          QuotientIs(year, 400, a, 100 * b + 100);
        } else {
          QuotientIs(year, 400, a + 1, 0);
        }
      }
    }
  }

  lemma CyclesOf(year: int) returns (a: int, b: int, c: int, e: int)
    ensures CycleParts(b, c, e) && year == YearInCycles(a, b, c, e)
  {
    var r400 := (year - 1) % 400;
    var r100 := r400 % 100;
    a, b, c, e := (year - 1) / 400, r400 / 100, r100 / 4, r100 % 4;
  }

  lemma DaysBeforeNextYear(year: int)
    ensures DaysBeforeYear(year + 1) == DaysBeforeYear(year) + YearLength(year)
  {
    var a, b, c, e := CyclesOf(year);
    DaysInCycles(a, b, c, e);
    if e < 3 {
      DaysInCycles(a, b, c, e + 1);
    } else if c < 24 {
      DaysInCycles(a, b, c + 1, 0);
    } else if b < 3 {
      DaysInCycles(a, b + 1, 0, 0);
    } else {
      DaysInCycles(a + 1, 0, 0, 0);
    }
  }

  /** The year of a day number, found by dividing out whole cycles. */
  function YearOf(day: int): (year: int)
    ensures DaysBeforeYear(year) <= day < DaysBeforeYear(year + 1)
  {
    var a, d400 := day / 146097, day % 146097;
    var b := Cycles(d400, 36524);
    var d100 := d400 - 36524 * b;
    var c, d4 := d100 / 1461, d100 % 1461;
    var e := Cycles(d4, 365);
    YearOfCorrect(a, b, c, e, day);
    YearInCycles(a, b, c, e)
  }

  /** Which of four cycles of `length` days; the fourth may be a day longer. */
  function Cycles(d: int, length: int): (n: int)
    requires 0 <= d <= 4 * length && 4 < length
    ensures 0 <= n < 4 && n * length <= d && (n < 3 ==> d < (n + 1) * length)
  {
    if d < length then 0 else if d < 2 * length then 1 else if d < 3 * length then 2 else 3
  }

  lemma YearOfCorrect(a: int, b: int, c: int, e: int, day: int)
    requires CycleParts(b, c, e)
    requires var start := 146097 * a + 36524 * b + 1461 * c + 365 * e;
             start <= day <= start + 365
             && (day == start + 365 ==> e == 3 && (c < 24 || b == 3))
    ensures DaysBeforeYear(YearInCycles(a, b, c, e)) <= day
    ensures day < DaysBeforeYear(YearInCycles(a, b, c, e) + 1)
  {
    DaysInCycles(a, b, c, e);
    DaysBeforeNextYear(YearInCycles(a, b, c, e));
    hide DaysBeforeYear, YearInCycles, IsLeap;
  }

  /** Length of month `m` (0 = January) of `year`. */
  function LengthIn(year: int, m: int): (n: int)
    ensures 28 <= n <= 31
  {
    if m == 1 then (if IsLeap(year) then 29 else 28)
    else if m == 3 || m == 5 || m == 8 || m == 10 then 30
    else 31
  }

  /** Days of `year` before month `m` (0 = January; 12 gives the whole year). */
  function DaysBeforeMonth(year: int, m: nat): int
    requires m <= 12
  {
    var feb := LengthIn(year, 1);
    if m == 0 then 0 else if m == 1 then 31 else if m == 2 then 31 + feb
    else if m == 3 then 62 + feb else if m == 4 then 92 + feb else if m == 5 then 123 + feb
    else if m == 6 then 153 + feb else if m == 7 then 184 + feb else if m == 8 then 215 + feb
    else if m == 9 then 245 + feb else if m == 10 then 276 + feb else if m == 11 then 306 + feb
    else 337 + feb
  }

  function MonthLength(month: int): (n: int)
    ensures 28 <= n <= 31
  {
    LengthIn(month / 12, month % 12)
  }

  /** Day number of the first day of a month. */
  function FirstDay(month: int): int {
    DaysBeforeYear(month / 12) + DaysBeforeMonth(month / 12, month % 12)
  }

  lemma FirstDayOfNextMonth(month: int)
    ensures FirstDay(month + 1) == FirstDay(month) + MonthLength(month)
  {
    if month % 12 == 11 {
      DaysBeforeNextYear(month / 12);
      assert (month + 1) / 12 == month / 12 + 1 && (month + 1) % 12 == 0;
    } else {
      assert (month + 1) / 12 == month / 12 && (month + 1) % 12 == month % 12 + 1;
    }
  }

  lemma MonthsIncrease(m0: int, m1: int)
    requires m0 <= m1
    ensures FirstDay(m0) + 28 * (m1 - m0) <= FirstDay(m1)
    decreases m1 - m0
  {
    hide *;
    if m0 < m1 {
      MonthsIncrease(m0, m1 - 1);
      FirstDayOfNextMonth(m1 - 1);
    }
  }

  /** The month holding a day number. */
  function MonthOf(day: int): (month: int)
    ensures FirstDay(month) <= day < FirstDay(month + 1)
  {
    var year := YearOf(day);
    DaysBeforeNextYear(year);
    hide *;
    var m := MonthWithin(year, day - DaysBeforeYear(year));
    MonthParts(year, m);
    FirstDayOfNextMonth(12 * year + m);
    12 * year + m
  }

  lemma MonthParts(year: int, m: nat)
    requires m < 12
    ensures FirstDay(12 * year + m) == DaysBeforeYear(year) + DaysBeforeMonth(year, m)
    ensures MonthLength(12 * year + m) == LengthIn(year, m)
  {
    assert (12 * year + m) / 12 == year && (12 * year + m) % 12 == m;
  }

  function MonthWithin(year: int, d: int): (m: nat)
    requires 0 <= d < YearLength(year)
    ensures m < 12 && DaysBeforeMonth(year, m) <= d < DaysBeforeMonth(year, m) + LengthIn(year, m)
  {
    var feb := LengthIn(year, 1);
    if d < 31 then 0 else if d < 31 + feb then 1 else if d < 62 + feb then 2
    else if d < 92 + feb then 3 else if d < 123 + feb then 4 else if d < 153 + feb then 5
    else if d < 184 + feb then 6 else if d < 215 + feb then 7 else if d < 245 + feb then 8
    else if d < 276 + feb then 9 else if d < 306 + feb then 10 else 11
  }

  /** MonthOf inverts FirstDay: it is the only month around the day. */
  lemma MonthOfUnique(day: int, month: int)
    requires FirstDay(month) <= day < FirstDay(month + 1)
    ensures MonthOf(day) == month
  {
    hide *;
    var k := MonthOf(day);
    if k < month {
      MonthsIncrease(k + 1, month);
    } else if month < k {
      MonthsIncrease(month + 1, k);
    }
  }

  function DayOf(t: Instant): int { t / DAY }
  function TimeOfDay(t: Instant): (r: int) ensures 0 <= r < DAY { t % DAY }

  /** `t.Day()`: the day of the month, from 1. */
  function DayOfMonth(t: Instant): (d: int)
    ensures 1 <= d <= MonthLength(MonthOf(DayOf(t)))
  {
    FirstDayOfNextMonth(MonthOf(DayOf(t)));
    hide MonthOf, DayOf, FirstDay, MonthLength;
    DayOf(t) - FirstDay(MonthOf(DayOf(t))) + 1
  }

  /** `t.Month()`: 1 for January. */
  function MonthOfYear(t: Instant): int { MonthOf(DayOf(t)) % 12 + 1 }

  /** `t.Weekday()`: 0 for Sunday.  Day 0 is a Monday. */
  function Weekday(t: Instant): (w: int) ensures 0 <= w < 7 { (DayOf(t) + 1) % 7 }

  function HourOf(t: Instant): int { TimeOfDay(t) / HOUR }
  function MinuteOf(t: Instant): int { TimeOfDay(t) % HOUR / MINUTE }
  function SecondOf(t: Instant): int { TimeOfDay(t) % HOUR % MINUTE / SECOND }
  function NanoOf(t: Instant): int { TimeOfDay(t) % HOUR % MINUTE % SECOND }

  /** The offset of a clock time within its day. */
  function Clock(hour: int, minute: int, second: int): int {
    hour * HOUR + minute * MINUTE + second * SECOND
  }

  /** The hour, minute and second fields pin down the time of day, and conversely. */
  lemma ClockFields(t: Instant, hour: int, minute: int, second: int)
    requires 0 <= hour < 24 && 0 <= minute < 60 && 0 <= second < 60
    ensures TimeOfDay(t) == Clock(hour, minute, second)
            <==> HourOf(t) == hour && MinuteOf(t) == minute && SecondOf(t) == second && NanoOf(t) == 0
    ensures TimeOfDay(t) % HOUR == Clock(0, minute, second)
            <==> MinuteOf(t) == minute && SecondOf(t) == second && NanoOf(t) == 0
  {
    var r := TimeOfDay(t);
    hide TimeOfDay;
    ClockParts(r);
    var h, m, s, n := r / HOUR, r % HOUR / MINUTE, r % HOUR % MINUTE / SECOND, r % HOUR % MINUTE % SECOND;
    assert h == HourOf(t) && m == MinuteOf(t) && s == SecondOf(t) && n == NanoOf(t);
    ClockUnique(h, m, s, n, hour, minute, second);
    ClockUnique(0, m, s, n, 0, minute, second);
    hide *;
  }

  lemma ClockParts(r: int)
    requires 0 <= r < DAY
    ensures var h, m, s, n := r / HOUR, r % HOUR / MINUTE, r % HOUR % MINUTE / SECOND, r % HOUR % MINUTE % SECOND;
            && 0 <= h < 24 && 0 <= m < 60 && 0 <= s < 60 && 0 <= n < SECOND
            && r % HOUR == Clock(0, m, s) + n && r == Clock(h, m, s) + n
  {
  }

  lemma ClockUnique(h: int, m: int, s: int, n: int, hour: int, minute: int, second: int)
    requires 0 <= h < 24 && 0 <= m < 60 && 0 <= s < 60 && 0 <= n < SECOND
    requires 0 <= hour < 24 && 0 <= minute < 60 && 0 <= second < 60
    ensures Clock(h, m, s) + n == Clock(hour, minute, second)
            <==> h == hour && m == minute && s == second && n == 0
  {
    if Clock(h, m, s) + n == Clock(hour, minute, second) {
      assert 0 <= Clock(0, m, s) + n < HOUR && 0 <= Clock(0, minute, second) < HOUR;
      assert h == hour;
      assert 0 <= Clock(0, 0, s) + n < MINUTE && 0 <= Clock(0, 0, second) < MINUTE;
      assert m == minute;
      assert s == second;
    }
  }

  lemma DaysOrdered(a: Instant, t: Instant)
    ensures DayOf(a) < DayOf(t) ==> a < t
    ensures DayOf(a) == DayOf(t) ==> a - DAY < t < a + DAY
  {
  }

  lemma WeekdayAdvances(t: Instant, u: Instant)
    requires DayOf(u) == DayOf(t) + 1
    ensures Weekday(u) == (Weekday(t) + 1) % 7
  {
  }

  lemma HourIs(t: int, q: int, r: int)
    requires t == q * HOUR + r && 0 <= r < HOUR
    ensures t / HOUR == q && t % HOUR == r
  {
  }

  lemma MinuteIs(t: int, q: int, r: int)
    requires t == q * MINUTE + r && 0 <= r < MINUTE
    ensures t / MINUTE == q && t % MINUTE == r
  {
  }

  lemma HourWithinDay(t: Instant)
    ensures TimeOfDay(t) % HOUR == t % HOUR
  {
    HourIs(t, 24 * (t / DAY) + TimeOfDay(t) / HOUR, TimeOfDay(t) % HOUR);
  }

  lemma MinuteWithinDay(t: Instant)
    ensures TimeOfDay(t) % HOUR % MINUTE == t % MINUTE
  {
    HourWithinDay(t);
    hide TimeOfDay;
    MinuteIs(t, 60 * (t / HOUR) + t % HOUR / MINUTE, t % HOUR % MINUTE);
  }

  lemma NanoWithinSecond(t: Instant)
    ensures NanoOf(t) == t % SECOND
  {
    MinuteWithinDay(t);
    hide TimeOfDay;
    assert t == (t / MINUTE) * 60 * SECOND + t % MINUTE;
  }

  /** `time.Date`: a day beyond the end of the month runs on into the next one. */
  function Date(month: int, day: int, timeOfDay: int): Instant {
    (FirstDay(month) + day - 1) * DAY + timeOfDay
  }

  /** `t.AddDate(years, 0, 0)`: 29 February runs on to 1 March of a common year. */
  function AddYears(t: Instant, years: int): Instant {
    Date(MonthOf(DayOf(t)) + 12 * years, DayOfMonth(t), TimeOfDay(t))
  }

  lemma FieldsWithin(t: Instant, month: int)
    requires FirstDay(month) <= DayOf(t) < FirstDay(month + 1)
    ensures MonthOf(DayOf(t)) == month && DayOfMonth(t) == DayOf(t) - FirstDay(month) + 1
  {
    hide FirstDay, MonthOf, DayOf, MonthLength;
    MonthOfUnique(DayOf(t), month);
  }

  lemma DateParts(month: int, day: int, timeOfDay: int)
    requires 0 <= timeOfDay < DAY
    ensures DayOf(Date(month, day, timeOfDay)) == FirstDay(month) + day - 1
    ensures TimeOfDay(Date(month, day, timeOfDay)) == timeOfDay
  {
    hide FirstDay;
  }

  lemma MonthsOrdered(a: Instant, u: Instant)
    ensures MonthOf(DayOf(u)) < MonthOf(DayOf(a)) ==> u < a
  {
    hide FirstDay, MonthOf, DayOf;
    var m, n := MonthOf(DayOf(a)), MonthOf(DayOf(u));
    if n < m {
      MonthsIncrease(n + 1, m);
      DaysOrdered(u, a);
      assert DayOf(u) < FirstDay(n + 1) <= FirstDay(m) <= DayOf(a);
    }
  }

  /** How far two dates are apart, by days and time of day. */
  lemma DatesApart(m0: int, d0: int, c0: int, m1: int, d1: int, c1: int)
    ensures var days := FirstDay(m1) + d1 - FirstDay(m0) - d0;
            && Date(m1, d1, c1) - Date(m0, d0, c0) == days * DAY + c1 - c0
            && (days <= 0 ==> days * DAY <= 0) && (days >= 0 ==> days * DAY >= 0)
            && (days >= 1 ==> days * DAY >= DAY) && (days <= 729 ==> days * DAY <= 729 * DAY)
  {
    hide FirstDay;
  }

  /** The clock of a date on the whole minute. */
  lemma ClockOfDate(month: int, day: int, hour: int, minute: int)
    requires 0 <= hour < 24 && 0 <= minute < 60
    ensures var t := Date(month, day, Clock(hour, minute, 0));
            t % MINUTE == 0 && HourOf(t) == hour && MinuteOf(t) == minute
  {
    var t := Date(month, day, Clock(hour, minute, 0));
    DateParts(month, day, Clock(hour, minute, 0));
    ClockFields(t, hour, minute, 0);
    MinuteIs(t, 1440 * (FirstDay(month) + day - 1) + 60 * hour + minute, 0);
    hide FirstDay, DayOf, TimeOfDay, HourOf, MinuteOf;
  }

  /** Splitting an instant into calendar fields and putting it together again. */
  lemma DateRoundTrip(t: Instant)
    ensures Date(MonthOf(DayOf(t)), DayOfMonth(t), TimeOfDay(t)) == t
  {
    hide MonthOf, FirstDay;
  }

  /** Putting fields together and reading them back, when the day exists. */
  lemma FieldsRoundTrip(month: int, day: int, timeOfDay: int)
    requires 1 <= day <= MonthLength(month) && 0 <= timeOfDay < DAY
    ensures var t := Date(month, day, timeOfDay);
            MonthOf(DayOf(t)) == month && DayOfMonth(t) == day && TimeOfDay(t) == timeOfDay
    ensures MonthOfYear(Date(month, day, timeOfDay)) == month % 12 + 1
  {
    hide FirstDay, MonthOf, DayOf, DayOfMonth, TimeOfDay, MonthLength, Date;
    DateParts(month, day, timeOfDay);
    FirstDayOfNextMonth(month);
    FieldsWithin(Date(month, day, timeOfDay), month);
  }

  /** A whole minute is the date of its month, day, hour and minute. */
  lemma DateOfFields(t: Instant)
    requires t % MINUTE == 0
    ensures t == Date(MonthOf(DayOf(t)), DayOfMonth(t), Clock(HourOf(t), MinuteOf(t), 0))
    ensures 0 <= HourOf(t) < 24 && 0 <= MinuteOf(t) < 60
  {
    DateRoundTrip(t);
    MinuteWithinDay(t);
    ClockParts(TimeOfDay(t));
    hide MonthOf, DayOfMonth, Date, TimeOfDay;
  }

  /** A day up to 31 beyond a short month is one of the first three days of the next. */
  lemma OverflowingFields(month: int, day: int, timeOfDay: int)
    requires MonthLength(month) < day <= 31 && 0 <= timeOfDay < DAY
    ensures var t := Date(month, day, timeOfDay);
            MonthOf(DayOf(t)) == month + 1 && DayOfMonth(t) == day - MonthLength(month) <= 3
  {
    hide FirstDay, MonthOf, DayOf, DayOfMonth, TimeOfDay, MonthLength;
    FirstDayOfNextMonth(month);
    FieldsRoundTrip(month + 1, day - MonthLength(month), timeOfDay);
    assert Date(month, day, timeOfDay) == Date(month + 1, day - MonthLength(month), timeOfDay);
  }

  // ----- known dates ---------------------------------------------------------

  /** Years of known leap and first day: days since 1 January of the year 1. */
  lemma KnownYears()
    ensures IsLeap(2000) && IsLeap(2024) && !IsLeap(1900) && !IsLeap(2026) && !IsLeap(2100)
    ensures DaysBeforeYear(1) == 0 && DaysBeforeYear(1900) == 693595 && DaysBeforeYear(1970) == 719162
    ensures DaysBeforeYear(2000) == 730119 && DaysBeforeYear(2024) == 738885
    ensures DaysBeforeYear(2026) == 739616 && DaysBeforeYear(2100) == 766644
  {
  }

  /** The lengths of the months. */
  lemma KnownMonths(year: int, m: nat)
    requires m < 12
    ensures MonthLength(12 * year + m) ==
            [31, if IsLeap(year) then 29 else 28, 31, 30, 31, 30, 31, 31, 30, 31, 30, 31][m]
  {
    MonthParts(year, m);
    hide MonthLength, IsLeap;
  }

  /** 1 March 2024, after a leap day, and 1 February 2026. */
  lemma KnownDays()
    ensures FirstDay(12 * 2024 + 2) == 738945 && FirstDay(12 * 2026 + 1) == 739647
    ensures FirstDay(12 * 1970) == 719162
  {
    KnownYears();
    MonthParts(2024, 2);
    MonthParts(2026, 1);
    MonthParts(1970, 0);
    hide FirstDay, DaysBeforeYear;
  }

  /** The week is anchored: 1 February 2026 is a Sunday, and the weekday of any instant
      is the number of days since then, modulo seven. */
  lemma WeekdayIsAnchored(t: Instant)
    ensures Weekday(t) == (DayOf(t) - DayOf(Date(12 * 2026 + 1, 1, 0))) % 7
  {
    hide FirstDay;
    KnownDays();
    DateParts(12 * 2026 + 1, 1, 0);
    SameRemainder(DayOf(t));
    hide DayOf, Date;
  }

  lemma SameRemainder(day: int)
    ensures (day - 739647) % 7 == (day + 1) % 7
  {
  }

  /** Two instants of the same weekday and time of day, less than a week apart, are one. */
  lemma SameWeekSameDay(t: Instant, u: Instant)
    requires Weekday(t) == Weekday(u) && TimeOfDay(t) == TimeOfDay(u) && DayOf(t) <= DayOf(u) < DayOf(t) + 7
    ensures t == u
  {
  }

  /** A time of day on the 1st to 7th of February 2026 falls on weekday 0 to 6, and no
      earlier in that month on the same weekday. */
  lemma FebruaryWeek(weekday: nat, timeOfDay: int, u: Instant)
    requires weekday < 7 && 0 <= timeOfDay < DAY
    ensures var t := Date(12 * 2026 + 1, 1 + weekday, timeOfDay);
            && Weekday(t) == weekday && TimeOfDay(t) == timeOfDay && Date(12 * 2026 + 1, 1, 0) <= t
            && (Date(12 * 2026 + 1, 1, 0) <= u && Weekday(u) == weekday && TimeOfDay(u) == timeOfDay ==> t <= u)
  {
    var feb := 12 * 2026 + 1;
    var first, t := Date(feb, 1, 0), Date(feb, 1 + weekday, timeOfDay);
    hide Weekday, TimeOfDay, Date, DayOf, FirstDay;
    DateParts(feb, 1, 0);
    DateParts(feb, 1 + weekday, timeOfDay);
    DatesApart(feb, 1, 0, feb, 1 + weekday, timeOfDay);
    WeekdayIsAnchored(t);
    if first <= u < t && Weekday(u) == weekday && TimeOfDay(u) == timeOfDay {
      DaysOrdered(u, first);
      DaysOrdered(t, u);
      SameWeekSameDay(u, t);
    }
  }

  /** 1 February 2026, 10:30:15, is 1769941815 seconds after the Unix epoch. */
  lemma KnownInstant()
    ensures Date(12 * 2026 + 1, 1, Clock(10, 30, 15)) - Date(12 * 1970, 1, 0) == 1_769_941_815_000_000_000
  {
    KnownDays();
    hide FirstDay;
  }
}
