# Bonghos, verified

Bonghos is a control panel for a Minecraft server. This project models the parts of it
that are hand-written algorithms or state machines and proves what they are for. Each
module is one component:

- **Calendar, Stamps, Recurrence, Cron, Schedule**: from a stored schedule expression to the
  next planned instant, over the Gregorian calendar in UTC. The loops of the next-run
  computation terminate, and what they return is characterised against the meaning of
  the expression rather than against the loop.
- **Leases, Ticker**: the tick, lease and advance protocol. `Leases` is the table under
  arbitrary interleaving, one SQL statement a step; `Ticker` is the code of one ticker,
  whose every pass is shown to be a run of that table.
- **Permissions, RoleStore, Shipped**: the dependency closure as a greatest fixpoint for
  any catalog and any iteration order, the optimistic-revision update of a role over
  whole runs of requests, and the catalog the build ships.
- **Lifecycle, Replay, Suppression**: the supervisor. Crash-loop protection and back-off
  over every run, the bounded replay buffer with lagging subscribers, and the five-second
  windows that hide the panel's own `list` polls but not the operator's.
- **Retention, Properties, Restore**: backup pruning with running counters, the
  `server.properties` reader and writer, and a scoped restore as renames any of which
  can fail.
- **TailLines, Utf8, Sanitize, Quoting, Config**: the text and byte algorithms, each
  against a specification over the whole input.
- **Paths**: lexical containment, from cleaning up to the three guards built on it.
- **RecoveryCodes, Invitations** (in `Credentials.dfy`): one-shot credentials as checks
  and conditional updates of concurrent requests.
- **Text** holds the pieces of Go's `strings` and `strconv` the rest is written with.

Objects whose methods change fields are classes; their methods are proved equal to a
function on values (`Apply`, `After`, `Left`, `Kept`, ...) or to an outright property of
the new state, and the theorems over runs are about that function. Time, failures of the
file system and the database, and the order of listings are parameters or arbitrary
choices, so every theorem holds for all of them.

## Where the code does less than it says

These are properties one would expect that the code does not have. The model keeps the
code as it is; each is settled by an exact condition and an input that fails.

- A monthly schedule for the 29th to 31st is not always the next such day: it is if and
  only if the first attempt after the clock falls in a month that has the day
  (`Recurrence.MonthlyLeastIff`). `Recurrence.MonthlySkipsMarch` shows "31 00:00", asked
  on 1 February 2026, giving 31 August.
- A cron step near 2^63 wraps and lets other values through, if and only if the addition
  after the last value leaves 64 bits (`Cron.MarkedIsDenotationIff`,
  `Cron.WrappedStepMarksMore`).
- A stored next run is not always later than the clock: it is, for every clock, if and
  only if a `once` stamp has no fraction of a second and an interval comes to a second or
  more on 64 bits (`Schedule.StorableIff`, `Ticker.AdvancesLaterIff`). The inputs are
  "2026-02-01 10:00:00.5" (`Schedule.HalfSecondIsStoredEarly`) and an interval of
  10000000000 seconds (`Schedule.LongIntervalGoesBack`); an interval is kept exactly up to
  9223372036 seconds (`Schedule.IntervalIsExactIff`) and planned later exactly as
  `Schedule.IntervalIsLaterIff` says.
- The times a ticker launches a schedule for do not always increase. They do over every
  poll, and what is stored never lies before the clock's second, if and only if an interval
  does not wrap below zero (`Ticker.Scheduler.Poll`, `Schedule.ForwardIff`); for every
  interval that does, `Ticker.LaunchBackwards` launches a time and then an earlier one.
- A lease does not outlive its schedule, and ids are handed out again. Over any run the
  protection against a second launch is intact throughout if and only if no schedule is
  created under an id of which a run was launched or is about to be
  (`Leases.AtMostOnceIff`, `Leases.OnceFromIff`); `Leases.ReusedIdLaunchesTwice` is such
  a run.
- The restart delay is a 64-bit product that is doubled again, and any number of seconds
  can be configured. Over every run nothing is started before the base delay has passed
  after an exit if and only if the base is at most 9223372036 seconds
  (`Lifecycle.RestartsWaitIff`); with arbitrary crashes on record, and for the bounds of
  the delay, the limit is 576460752 seconds (`Lifecycle.AllWaitIff`,
  `Lifecycle.DelayBoundsIff`). With 10000000000 seconds the delay is negative and the
  script restarts at once (`Lifecycle.LongDelayIsNone`).
- A stop request does not always prevent a restart. `Lifecycle.StopPreventsRestartIff`
  gives the condition in every mode of the loop, with and without restarts requested
  afterwards; `Lifecycle.StopDuringBackoffRestarts` is a run that restarts. A stop during
  a launch does not keep the script from coming up (`Lifecycle.StopDuringLaunch`).
- An operator's `list` loses its protection when a second one fails to be written. From
  its acceptance on, and for five seconds, the console is safe from hiding at every point
  of a run if and only if no such write fails on that run
  (`Suppression.OperatorListVisibleIff`, `Suppression.ProtectedAlongIff`);
  `Suppression.FailedListEndsLease` is a run on which one does.
- A storage limit is the megabytes it says if and only if it is below 2^43
  (`Retention.StorageLimitIsExactIff`, `Retention.HugeLimitMeansNone`).
- A world-only restore can report success and leave another world live: if and only if
  `Restore.RepointWorks` fails, because a world is named like the properties file (the
  clause on `WorldOf` of `Restore.Disk.RestoreBackup`, `Restore.RepointCanFail`).
- An archive that holds a sidecar's name makes the restore destroy a live entry. Every
  step is safe whatever fails if and only if no selected name has a selected sidecar that
  is live: with that the steps are safe under all faults, without it the run in which
  nothing fails already passes through an unsafe step (the clauses on `SafeSince` of
  `Restore.Disk.RestoreEntries` and `Restore.Disk.RestoreBackup`). The input is an archive
  with "a" and the name of its sidecar, over a live entry of that name
  (`Restore.RestoreLiveSidecar`).
- A saved configuration is loaded back unchanged if and only if every trusted host is
  printable, not empty and free of quotes, backslashes and commas
  (`Config.LoadSaveIff`).

## Model

| member | source | states |
|---|---|---|
| Text.AtoiSigned | source/internal/scheduler/scheduler.go:177-183 | A decimal number is read with either sign or none exactly if it fits 64 bits. |
| Text.FieldsAreSolid | source/internal/scheduler/scheduler.go:118-119 | The words of a text hold no white space and are not empty. |
| Calendar.YearOf | source/internal/scheduler/scheduler.go:100 | The year of a day number is the one whose first day is not after it and whose successor's is. |
| Calendar.MonthOf | source/internal/scheduler/scheduler.go:149 | Every day number lies in the month it is assigned to, for all integers. |
| Calendar.MonthOfUnique | source/internal/scheduler/scheduler.go:150 | No other month contains the day, so splitting a date into fields is well defined. |
| Calendar.FirstDayOfNextMonth | source/internal/scheduler/scheduler.go:151 | Months tile the days without gap or overlap, leap years included. |
| Calendar.KnownMonths | source/internal/scheduler/scheduler.go:149-152 | The lengths of the twelve months. |
| Calendar.DateRoundTrip | source/internal/scheduler/scheduler.go:111 | Taking an instant apart into month, day and time of day and putting it together gives the instant. |
| Calendar.FieldsRoundTrip | source/internal/scheduler/scheduler.go:130 | Fields that exist in the month, and the number of the month, read back unchanged from the date built of them. |
| Calendar.OverflowingFields | source/internal/scheduler/scheduler.go:149-152 | A day the month lacks becomes one of the first three days of the following month. |
| Calendar.ClockFields | source/internal/scheduler/scheduler.go:100-103 | Hour, minute and second fields agree with an offset into the day exactly when no nanoseconds are left over. |
| Calendar.DateOfFields | source/internal/scheduler/scheduler.go:238-247 | A whole minute is the date of its month, day, hour and minute. |
| Calendar.WeekdayIsAnchored | source/internal/scheduler/scheduler.go:131 | 1 February 2026 is a Sunday, and any weekday is the number of days since then modulo seven. |
| Calendar.KnownDays | source/internal/scheduler/scheduler.go:100 | The day numbers of 1 March 2024, 1 February 2026 and the Unix epoch. |
| Calendar.KnownInstant | source/internal/scheduler/scheduler.go:476 | 1 February 2026, 10:30:15, is 1769941815 seconds after the Unix epoch. |
| Recurrence.OffsetOfMatch | source/internal/scheduler/scheduler.go:94-153 | What an expression names, field by field, is one offset within the hour or day plus the weekday or day of month. |
| Recurrence.MatchesApart | source/internal/scheduler/scheduler.go:101-115 | Two runs of one expression are at least its period apart. |
| Recurrence.NextHourly | source/internal/scheduler/scheduler.go:94-104 | The loop ends with the least match strictly after the argument, at most an hour later. |
| Recurrence.NextDaily | source/internal/scheduler/scheduler.go:105-115 | The loop ends with the least match strictly after the argument, at most a day later. |
| Recurrence.NextWeekly | source/internal/scheduler/scheduler.go:116-134 | The loop ends with the least match strictly after the argument. |
| Recurrence.HourlyRuns | source/internal/scheduler/scheduler.go:94-104 | Asked at the start of an hour the hourly run is at its minute and second of that hour. |
| Recurrence.DailyRuns | source/internal/scheduler/scheduler.go:105-115 | Asked at the start of a day the daily run is at its time of that day. |
| Recurrence.WeeklyInFebruary | source/internal/scheduler/scheduler.go:116-134 | Asked at the end of Saturday 31 January 2026, weekdays 0 to 6 run on 1 to 7 February. |
| Recurrence.StepTerminates | source/internal/scheduler/scheduler.go:150-152 | Each failed monthly attempt brings the loop closer to a month of 31 days although overflow makes it skip months. |
| Recurrence.MonthlyFrom | source/internal/scheduler/scheduler.go:149-153 | Whatever month the loop starts at, it stops at a match strictly after the argument. |
| Recurrence.NextMonthly | source/internal/scheduler/scheduler.go:135-153 | The loop over overflowing dates terminates at the instant MonthlyFrom characterises. |
| Recurrence.MonthlyLeastIff | source/internal/scheduler/scheduler.go:149-152 | The monthly result is the least match if and only if the first attempt after the argument is of a month that has the day. |
| Recurrence.MonthlyLeastTo28 | source/internal/scheduler/scheduler.go:135-153 | For days up to the 28th the monthly result is always the least match. |
| Recurrence.MonthlyRuns | source/internal/scheduler/scheduler.go:135-153 | Asked at the start of a month that has the day the monthly run is at its time of that day. |
| Recurrence.MonthlySkipsMarch | source/internal/scheduler/scheduler.go:149-152 | A concrete input for which a match is skipped. |
| Cron.ParsePart | source/internal/scheduler/scheduler.go:252-284 | An accepted list element is a non-empty range inside the field's bounds with a positive step. |
| Cron.ParsePrinted | source/internal/scheduler/scheduler.go:252-284 | Every list element of the grammar, printed and parsed, gives exactly its meaning: its range or its error. |
| Cron.MarkRange | source/internal/scheduler/scheduler.go:285-287 | The marking loop terminates despite 64-bit wrap-around and adds exactly the wrapped walk's values. |
| Cron.MarkedIsDenotationIff | source/internal/scheduler/scheduler.go:285-287 | An element marks every step-th value of its range and nothing else if and only if the addition after the last one stays within 64 bits. |
| Cron.WrappedStepMarksMore | source/internal/scheduler/scheduler.go:285-287 | "5/9223372036854775807" also lets minute 3 through. |
| Cron.CronField | source/internal/scheduler/scheduler.go:250-290 | The field loop gives the union over the comma-separated elements, never empty, or the first error. |
| Cron.FieldMembers | source/internal/scheduler/scheduler.go:250-290 | A field is rejected exactly when some element is, and otherwise holds exactly the values some element marks. |
| Cron.FieldIsMeaningIff | source/internal/scheduler/scheduler.go:250-290 | An accepted field holds exactly the values its elements name if and only if no element wraps. |
| Cron.PrintedFieldMeans | source/internal/scheduler/scheduler.go:250-290 | A written list is accepted exactly when every element means a range; it then denotes the union of the ranges, provided no element's step wraps. |
| Cron.Search | source/internal/scheduler/scheduler.go:238-247 | The minute walk finds the least whole minute after the argument that matches all five fields, and fails exactly when the window has none. |
| Cron.NextCron | source/internal/scheduler/scheduler.go:213-248 | Field count and field errors come first and in order; otherwise the least match in the window or the error that there is none. |
| Cron.WrittenExpressionMeans | source/internal/scheduler/scheduler.go:213-290 | A written five-field expression is accepted exactly when every element of its lists means a range; if no step wraps, its next run is the least whole minute in the window that all five lists name, or the error that there is none. |
| Cron.YearlyRuns | source/internal/scheduler/scheduler.go:213-248 | "minute hour day month *", asked at the end of a year, runs at that minute of that day of the next. |
| Cron.WeeklyRuns | source/internal/scheduler/scheduler.go:213-248 | "minute hour * * weekday", asked at the end of 31 January 2026, runs on 1 to 7 February for weekdays 0 to 6. |
| Cron.WeeklyText | source/internal/scheduler/scheduler.go:213 | The text of such an expression, "0 4 * * 0". |
| Cron.ListText | source/internal/scheduler/scheduler.go:250 | The text of a list, "1-5/2,*/7". |
| Cron.WindowIsTwoYears | source/internal/scheduler/scheduler.go:239 | The window is 730 or 731 days long whatever the start, 29 February included. |
| Stamps.ParsePrintedOnce | source/internal/scheduler/scheduler.go:79-87 | A date and time of four and two digits each, in either layout, is read as the instant it names if there is such a day and time, and rejected if not. |
| Stamps.FractionIsRead | source/internal/scheduler/scheduler.go:82-87 | A fraction after the seconds is read although no layout asks for one, and moves the instant by just that much. |
| Stamps.KnownStamps | source/internal/scheduler/scheduler.go:79-81 | What the two layouts look like, "2026-02-01 10:30:15" and "2026-02-01 10:30". |
| Stamps.KnownDigitsRead | source/internal/scheduler/scheduler.go:82-87 | Nine decimals of a fraction count and further ones do not; the hour alone may have one digit. |
| Stamps.TwoDecimals | source/internal/scheduler/scheduler.go:82-87 | Two decimals are tenths and hundredths of a second. |
| Schedule.ParseHMS | source/internal/scheduler/scheduler.go:172-189 | Every accepted time of day is in range. |
| Schedule.ParseHourly | source/internal/scheduler/scheduler.go:191-209 | Every accepted minute and second is in range. |
| Schedule.WrittenTime | source/internal/scheduler/scheduler.go:172-189 | A time of day is accepted with or without seconds exactly when it is in range; without them they are zero. |
| Schedule.WrittenHourly | source/internal/scheduler/scheduler.go:191-209 | So is a time within the hour. |
| Schedule.WrittenNumber | source/internal/scheduler/scheduler.go:142-159 | A day of the month is accepted from 1 to 31, an interval from sixty seconds. |
| Schedule.LowerCaseNames | source/internal/scheduler/scheduler.go:168-170 | Weekdays are named in either case. |
| Schedule.FirstFault | source/internal/scheduler/scheduler.go:94-148 | Which fault of a calendar expression is reported. |
| Schedule.ParsePattern | source/internal/scheduler/scheduler.go:94-148 | Every accepted calendar expression is a valid pattern, and each rejected one gets the error of its first fault. |
| Schedule.ParsePrintedPattern | source/internal/scheduler/scheduler.go:94-148 | Every valid pattern can be written as an expression that parses back to it. |
| Schedule.ParseInterval | source/internal/scheduler/scheduler.go:154-159 | An accepted interval is at least a minute and fits 64 bits. |
| Schedule.NextRun | source/internal/scheduler/scheduler.go:71-165 | For every type, expression and instant the answer is the next run the type calls for, no further run, or the error the type gives. |
| Schedule.NextOf | source/internal/scheduler/scheduler.go:94-153 | Hourly, daily and weekly patterns get their least match, monthly ones the instant the loop is characterised by. |
| Schedule.WeeklyTextRuns | source/internal/scheduler/scheduler.go:116-134 | "SUN h:m" to "SAT h:m", asked at the end of 31 January 2026, run on 1 to 7 February. |
| Schedule.DailyTextRuns | source/internal/scheduler/scheduler.go:105-115 | "h:m" asked at the start of a day runs on that day. |
| Schedule.HourlyTextRuns | source/internal/scheduler/scheduler.go:94-104 | "m" asked at the start of an hour runs in that hour. |
| Schedule.MonthlyTextRuns | source/internal/scheduler/scheduler.go:135-153 | "d h:m" asked at the start of a month that has the day runs on it. |
| Schedule.OnceTextRuns | source/internal/scheduler/scheduler.go:77-93 | A date and time in either layout runs once, at its instant, if that is still to come. |
| Schedule.CronTextRuns | source/internal/scheduler/scheduler.go:161-162 | "0 4 * * 0" asked at the end of 31 January 2026 runs at four on Sunday 1 February. |
| Schedule.IntervalIsExactIff | source/internal/scheduler/scheduler.go:154-160 | A fixed interval is kept exactly if and only if its nanoseconds fit a 64-bit duration. |
| Schedule.IntervalIsLaterIff | source/internal/scheduler/scheduler.go:154-160 | A fixed interval plans a later instant if and only if its nanoseconds are positive as a 64-bit number. |
| Schedule.LongIntervalGoesBack | source/internal/scheduler/scheduler.go:154-160 | An accepted interval whose next run lies in the past, and a longer one that is not kept but still planned later. |
| Schedule.StoredIsLater | source/internal/scheduler/scheduler.go:473-480 | Truncated to the second for storage, a next run is still strictly later than the clock it was computed from, for plans whose stamp has no fraction and whose interval wraps to a second or more. |
| Schedule.StorableIff | source/internal/scheduler/scheduler.go:473-480 | What is stored is later than the clock for every clock if and only if a `once` stamp has no fraction and an interval wraps to a second or more. |
| Schedule.FractionIsStoredEarly | source/internal/scheduler/scheduler.go:79-90 | Any stamp with a fraction of a second is accepted and falls outside that condition. |
| Schedule.HalfSecondIsStoredEarly | source/internal/scheduler/scheduler.go:79-90 | "2026-02-01 10:00:00.5" is such a stamp. |
| Schedule.ForwardIff | source/internal/scheduler/scheduler.go:473-480 | What is stored never lies before the second of the clock, for every clock, if and only if an interval does not wrap below zero. |
| Leases.RunConcat | source/internal/scheduler/scheduler.go:441-480 | Runs of the tables compose. |
| Leases.LeaseOutcome | source/internal/scheduler/scheduler.go:466-471 | A ticker gets a lease exactly if the schedule exists, the time has no lease or record and the statement works, and then no other gets it. |
| Leases.RecordOutcome | source/internal/scheduler/scheduler.go:482-488 | A recorded time of an existing schedule cannot be leased; deleting a schedule removes exactly its own leases and records. |
| Leases.InvStep | source/internal/scheduler/scheduler.go:465-480 | A statement keeps a safe table safe if and only if it does not create a schedule under an id of which a run was launched or is about to be. |
| Leases.AtMostOnce | source/internal/scheduler/scheduler.go:441-471 | For any interleaving of tickers, stale advances, edits, deletes and recorded runs no planned time of a schedule is launched twice, provided no schedule is created under an id of which a run was launched or is about to be. |
| Leases.OnceFromIff | source/migrations/0001_initial.sql:140-143 | Short of new schedules, nothing is ever launched twice from a table if and only if no held key was launched or is held twice and every launched or held key of an existing schedule still has its lease. |
| Leases.AtMostOnceIff | source/internal/scheduler/scheduler.go:441-480 | Over any run the protection is intact at every point if and only if every creation on it takes an id of which nothing was launched or is about to be. |
| Leases.ReusedIdLaunchesTwice | source/migrations/0001_initial.sql:140-143 | With a reused id the cascade of a delete gives a lease away and a planned time is launched twice. |
| Ticker.AdvancedIsLater | source/internal/scheduler/scheduler.go:473-480 | What advance writes is nothing or strictly later than the clock, for plans whose stamp has no fraction and whose interval wraps to a second or more. |
| Ticker.AdvancesLaterIff | source/internal/scheduler/scheduler.go:473-480 | What advance writes is later than the clock for every clock exactly for the plans whose stored next run always is. |
| Ticker.Scheduler.LeaseRun | source/internal/scheduler/scheduler.go:466-471 | Succeeds exactly for an existing schedule, an unused key and a working database, and then the key is used. |
| Ticker.Scheduler.Advance | source/internal/scheduler/scheduler.go:473-480 | Writes the next run after the clock to that row only, and nothing after an error or a last run. |
| Ticker.Scheduler.TickRow | source/internal/scheduler/scheduler.go:449-462 | One due row: launched exactly when its key was free, advanced in any case, and the whole a run of the lease protocol. |
| Ticker.Scheduler.Tick | source/internal/scheduler/scheduler.go:441-463 | One pass launches exactly the schedules that are enabled, planned not later than the clock and without a lease, each once and for its planned time, advances exactly the enabled ones that were due, leaves every other row as it was, and is a run of the lease protocol. |
| Ticker.Scheduler.Poll | source/internal/scheduler/scheduler.go:402-414 | Over a clock that never goes back and any order of each listing: only enabled schedules are launched, not before their time and for a time they came with or that was computed; a free planned time is launched at the first reading not before it; rows that are disabled or not planned stay as they are; no time is launched twice, launched times strictly increase if no interval wraps below zero, none is left due if stored next runs are always later, and the whole is a run of the lease protocol. |
| Ticker.LaunchBackwards | source/internal/scheduler/scheduler.go:402-480 | For every plan whose interval wraps below zero two ticks launch a time and then an earlier one. |
| Permissions.EnforceDependencies | source/internal/app/role_permissions.go:85-108 | For every dependency graph and every iteration order the sweeps terminate and leave exactly the greatest closed subset of what was granted. |
| Permissions.IsSupported | source/internal/app/role_permissions.go:92-105 | A permission stays exactly when it is known and all it requires is granted. |
| Permissions.GreatestClosedIsGreatest | source/internal/app/role_permissions.go:85-108 | The union of all closed subsets is itself closed and contains each of them. |
| Permissions.GreatestClosedUnique | source/internal/app/role_permissions.go:85-108 | A closed subset that contains every other is that one set, so the result cannot depend on the order. |
| Permissions.ClosedIsOwnGreatest | source/internal/app/role_permissions.go:85-108 | A set that is already closed is left alone. |
| RoleStore.Store.Load | source/internal/app/role_permissions.go:34-83 | A role's permissions are the defaults, or the greatest closed part of its stored, still assignable rows. |
| RoleStore.Store.Validate | source/internal/app/role_permissions.go:184-205 | A request is valid exactly when every entry is assignable to the role and the set is closed. |
| RoleStore.Store.Update | source/internal/app/role_permissions.go:228-346 | Every request gets the response the checks call for in their order, and the tables change only by a commit. |
| RoleStore.CommitIff | source/internal/app/role_permissions.go:228-293 | A request is committed if and only if the actor may edit the role, everything asked for is known, assignable and has its requirements, an Admin grants nothing neither role holds, the revision is current and the set differs. |
| RoleStore.Refusals | source/internal/app/role_permissions.go:228-293 | Why a request is not committed: the first reason in the handler's order. |
| RoleStore.EffectiveMeans | source/internal/app/role_permissions.go:34-83 | The defaults, or for a customized profile the greatest set of stored, known, assignable permissions with their requirements. |
| RoleStore.EffectiveIsClosed | source/internal/app/role_permissions.go:34-83 | Every effective set is closed, whatever rows are stored. |
| RoleStore.CommitRoundTrip | source/internal/app/role_permissions.go:295-346 | After a commit the role holds exactly the requested set one revision on, and no other role has changed. |
| RoleStore.CommitsAreConsecutive | source/internal/app/role_permissions.go:260-320 | Over any run of requests, the commits to a role carry consecutive revisions: none is lost or overwritten unseen. |
| RoleStore.LastCommitHolds | source/internal/app/role_permissions.go:295-346 | After any run a role holds what its last commit asked for. |
| RoleStore.NoEscalation | source/internal/app/role_permissions.go:264-280 | Without the Owner, no run gives a role a permission that neither it nor the Admin role held at the start, and the Admin role stays as it was. |
| Shipped.ShippedIsWellFormed | source/internal/authorization/authorization.go:68-127 | Every shipped default set is closed under the shipped requirements. |
| Shipped.DefaultsCanBeRequested | source/internal/authorization/authorization.go:68-127 | The defaults of every role but the Owner are themselves a valid request for it. |
| Shipped.ShippedAdminChangesNothing | source/internal/authorization/authorization.go:100-114 | As shipped, no run of requests by anyone but the Owner changes any role. |
| Lifecycle.Config.Normalised | source/internal/supervisor/supervisor.go:128-137 | A configuration as used always has a positive delay and crash limit, and a valid one is unchanged. |
| Lifecycle.Supervisor.BeginStart | source/internal/supervisor/supervisor.go:282-290 | The loop top returns when the context is done; otherwise the launch begins with the server marked starting, or as a refusal if one is up. |
| Lifecycle.Supervisor.FinishStart | source/internal/supervisor/supervisor.go:316-323 | After the launch the server is starting exactly when it was not refused and worked, and a stop noted meanwhile stays noted. |
| Lifecycle.Supervisor.RecordExit | source/internal/supervisor/supervisor.go:196-224 | An exit is judged by the restart request, then the stop request, then its code, and only a crash is timed. |
| Lifecycle.Supervisor.RecentCrashes | source/internal/supervisor/supervisor.go:264-273 | Counts exactly the crashes strictly after the cutoff. |
| Lifecycle.Supervisor.DecideRestart | source/internal/supervisor/supervisor.go:226-245 | The loop goes on exactly when the run model does. |
| Lifecycle.Supervisor.ChooseDelay | source/internal/supervisor/supervisor.go:246-255 | The doubling loop, wrapping at each step, gives the wrapped product of the base delay and a power of two fixed by the recent crashes. |
| Lifecycle.DelayBounds | source/internal/supervisor/supervisor.go:246-255 | The delay is between the base and sixteen times it, doubles with each recent crash and is capped, for bases of at most 576460752 seconds; undoubled it is the base up to 9223372036. |
| Lifecycle.DelayBoundsIff | source/internal/supervisor/supervisor.go:246-255 | Every delay lies between the base and sixteen times it if and only if the base is at most 576460752 seconds. |
| Lifecycle.CrashKeepsWindows | source/internal/supervisor/supervisor.go:264-279 | A crash that follows fewer than the limit of recent ones keeps every ten-minute window within the limit. |
| Lifecycle.NoCrashLoop | source/internal/supervisor/supervisor.go:180-279 | Over every run under `on-failure` or `always`, no ten minutes hold more crashes, counted by index, than the limit. |
| Lifecycle.GivesUpIff | source/internal/supervisor/supervisor.go:226-245 | Over any run the crash-loop error is returned if and only if a crash is judged, under `on-failure` or `always` and with the unit not being stopped, when the last ten minutes hold at least the limit of crashes. |
| Lifecycle.RestartsIff | source/internal/supervisor/supervisor.go:226-262 | Judged at once, a requested restart, and a crash unless the policy is `never` or the last ten minutes hold the limit, leads through the delay back to the loop top; any other exit makes `Run` return. |
| Lifecycle.ExitEndsIff | source/internal/supervisor/supervisor.go:203-245 | After an exit the script is never started again, whatever is requested, if and only if the unit is being stopped or, with no restart requested, the exit was asked for, its code is zero or the policy is `never`. |
| Lifecycle.OnlyCrashesAreTimed | source/internal/supervisor/supervisor.go:203-220 | A crash is recorded exactly at an exit with another code than zero that nothing asked for. |
| Lifecycle.CancelReturns | source/internal/supervisor/supervisor.go:183-187 | When the unit is being stopped the loop returns without an error at the top, on a decision and out of the back-off. |
| Lifecycle.Defaults | source/internal/supervisor/supervisor.go:128-137 | Without settings the delay is ten seconds and the limit five crashes. |
| Lifecycle.RestartWaits | source/internal/supervisor/supervisor.go:226-262 | After an exit nothing is started before the base delay has passed, whatever happens in between, from every state in which no doubling leaves 64 bits or the base fits and at most one crash is recent. |
| Lifecycle.AllWaitIff | source/internal/supervisor/supervisor.go:226-262 | That holds for every state with an exit, whatever crashes are on record, if and only if the base is at most 576460752 seconds. |
| Lifecycle.RestartsWaitIff | source/internal/supervisor/supervisor.go:180-262 | After every exit of every run from the start nothing is started before the base delay has passed if and only if the base is at most 9223372036 seconds. |
| Lifecycle.LongDelayIsNone | source/internal/supervisor/supervisor.go:246-262 | A delay of 10000000000 seconds is a negative one, and a run restarts before it. |
| Lifecycle.StopMakesExitCleanIff | source/internal/supervisor/supervisor.go:602-611 | While the script is up, a stop request makes its exit a clean stop for certain if and only if no restart was requested before and the state lets it register. |
| Lifecycle.StopPreventsRestartIff | source/internal/supervisor/supervisor.go:180-262 | In every mode of the loop, after a stop request no run comes to start the script again if and only if the unit is being stopped, the loop has returned or will after this exit, or the script is up or being launched, no restart was requested before, and the request registers or the policy is `never`; a restart requested afterwards undoes it only during a launch. |
| Lifecycle.StopDuringBackoffRestarts | source/internal/supervisor/supervisor.go:604-607 | A stop request during the back-off does not prevent the restart. |
| Lifecycle.StopDuringLaunch | source/internal/supervisor/supervisor.go:602-611 | A stop request during the launch does not keep the script from coming up; the script is not started again, unless a restart is requested afterwards. |
| Replay.Console.Broadcast | source/internal/supervisor/supervisor.go:375-390 | Keeps the buffer the longest suffix of the stream within both bounds with its size exact, and gives the line to every subscriber with room. |
| Replay.Console.Append | source/internal/supervisor/supervisor.go:376-382 | Dropping from the front after each line gives the same buffer as dropping once from the whole stream. |
| Replay.Console.Subscribe | source/internal/supervisor/supervisor.go:407-413 | The snapshot is the buffer of the stream so far and the channel starts empty. |
| Replay.Console.Receive | source/internal/supervisor/supervisor.go:383-389 | Takes the oldest queued line of that subscriber and leaves the others alone. |
| Replay.Console.Cancel | source/internal/supervisor/supervisor.go:413-417 | Removes that subscriber only. |
| Replay.KeptIsLongest | source/internal/supervisor/supervisor.go:379-382 | No longer suffix of the stream is within the line and byte bounds. |
| Replay.KeptMeans | source/internal/supervisor/supervisor.go:376-382 | At most 500 lines and 48 KiB with line ends, or one line; every longer suffix of the stream exceeds one of them. |
| Replay.KeptIncremental | source/internal/supervisor/supervisor.go:376-382 | The buffer never needs lines it has dropped. |
| Replay.SuffixFits | source/internal/supervisor/supervisor.go:379-382 | Whatever fits, each of its suffixes fits. |
| Replay.NothingMissed | source/internal/supervisor/supervisor.go:405-413 | If nothing was dropped, snapshot, received and queued lines are one unbroken piece of the stream up to now. |
| Replay.FaithfulMeans | source/internal/supervisor/supervisor.go:383-413 | Received and queued lines are lines of the stream since joining, in order, all but the dropped ones. |
| Replay.DeliveredStaysFaithful | source/internal/supervisor/supervisor.go:383-389 | Delivered or dropped, a line leaves every subscriber's view a subsequence of the stream that accounts for each loss. |
| Suppression.Supervisor.BeginSend | source/internal/supervisor/supervisor.go:515-548 | A poll during the operator's lease is not sent; any other opens a suppression; an operator's `list` cancels one and takes the lease. |
| Suppression.Supervisor.Suppressed | source/internal/supervisor/supervisor.go:460-487 | A line is hidden exactly when a live suppression still waits for such an echo or reply, and each is used up once. |
| Suppression.AtMostTwoPerPoll | source/internal/supervisor/supervisor.go:441-487 | Over every run the lines hidden are at most two for each suppression opened, and no more of those than polls. |
| Suppression.StaysSound | source/internal/supervisor/supervisor.go:441-561 | Over every run only bookkeeping commands are waited for, and no deadline is more than five seconds off. |
| Suppression.OnlyBookkeepingIsHidden | source/internal/supervisor/supervisor.go:441-487 | Whatever is hidden looks like the echo or the reply of `list`, and the count stays below two per poll. |
| Suppression.ReplyIff | source/internal/supervisor/supervisor.go:454-456 | A reply holds "players online", or "There are", a number and "of a max". |
| Suppression.EchoIff | source/internal/supervisor/supervisor.go:468-472 | An echo is the command alone or after a prompt, white space aside. |
| Suppression.PollHidesBoth | source/internal/supervisor/supervisor.go:460-533 | A poll without an operator's lease hides its echo and its reply, in either order and for five seconds, and nothing after them. |
| Suppression.OtherLinesAreShown | source/internal/supervisor/supervisor.go:460-487 | Any other line is shown and changes nothing, and after five seconds every line is shown. |
| Suppression.UnsentPollHidesNothing | source/internal/supervisor/supervisor.go:525-561 | A poll that is not sent for a lease changes nothing, and one whose write fails hides nothing. |
| Suppression.LeaseHidesNothing | source/internal/supervisor/supervisor.go:529-546 | While the lease lasts no line is hidden on any run on which no write of an operator's `list` fails. |
| Suppression.LeaseProtectsIff | source/internal/supervisor/supervisor.go:529-546 | With nothing in flight, no run without a failed write of an operator's `list` hides a line before a deadline if and only if the operator's lease reaches it. |
| Suppression.ProtectedAlongIff | source/internal/supervisor/supervisor.go:515-561 | Under a lease that reaches the deadline, hiding is ruled out at every point of a run if and only if no write of an operator's `list` fails on it. |
| Suppression.OperatorListStaysVisible | source/internal/supervisor/supervisor.go:540-547 | From the acceptance of an operator's `list`, over five seconds, no line is hidden as long as no such write fails. |
| Suppression.OperatorListVisibleIff | source/internal/supervisor/supervisor.go:540-561 | For five seconds from the acceptance of an operator's `list` hiding is ruled out at every point of a run if and only if no such write fails on it. |
| Suppression.FailedListEndsLease | source/internal/supervisor/supervisor.go:549-559 | A second `list` whose write fails gives away the first one's lease. |
| Retention.Catalog.List | source/internal/backup/backup.go:838-867 | Exactly the records whose archive is present, or an error if some archive is a link or no plain file. |
| Retention.SortByAge | source/internal/backup/backup.go:719 | The same records, oldest first. |
| Retention.Catalog.Delete | source/internal/backup/backup.go:764-780 | Succeeds exactly for a present, unprotected backup on which no operation fails, and removes that row only. |
| Retention.Totals | source/internal/backup/backup.go:720-737 | The counters start as the number of verified records and the byte sum. |
| Retention.CountersStep | source/internal/backup/backup.go:756-758 | Each decision changes count, verified count and byte sum exactly as the counters do. |
| Retention.Catalog.Prune | source/internal/backup/backup.go:713-761 | Every decision of the pass is taken on the true count, verified count and byte sum of what is left, and exactly the reported rows are gone; if the listing fails nothing is deleted. |
| Retention.KeepsOneVerified | source/internal/backup/backup.go:726-732 | Only verified, unprotected backups are deleted, and a verified one is left if there was one. |
| Retention.PruneIsComplete | source/internal/backup/backup.go:739-760 | A record kept although a limit is still exceeded at the end is protected, unverified, cannot be deleted, or at most one verified backup is left. |
| Retention.CountIsEnforced | source/internal/backup/backup.go:739-760 | After a pass no more backups are left than the count limit, unless one verified is left or all are protected, unverified or cannot be deleted. |
| Retention.StorageIsEnforced | source/internal/backup/backup.go:739-760 | Nor more bytes than the megabytes of the storage limit, below 2^43 of them. |
| Retention.AgeIsEnforced | source/internal/backup/backup.go:739-760 | Nor any made before the age limit. |
| Retention.DeletedForReason | source/internal/backup/backup.go:739-760 | A backup is deleted only for its age or while what is left exceeds the count or the storage limit, and only verified, unprotected and not the last. |
| Retention.OldestGoFirst | source/internal/backup/backup.go:718-719 | Before a backup is deleted every older one that may go has gone or cannot be deleted. |
| Retention.CountIsNotOverrun | source/internal/backup/backup.go:744 | A count limit alone never leaves fewer backups than the limit. |
| Retention.StorageLimitIsExactIff | source/internal/backup/backup.go:746 | The storage limit means its megabytes if and only if the shift stays within 64 bits. |
| Retention.HugeLimitMeansNone | source/internal/backup/backup.go:746 | A limit of 2^44 megabytes acts as a limit of zero. |
| Properties.ReadProperties | source/internal/minecraft/players.go:198-214 | The line loop gives the map in which a later line for a key wins. |
| Properties.LineMeans | source/internal/minecraft/players.go:203-212 | Blank lines, comments and lines without `=` say nothing; any other sets the key before the first `=`, white space aside. |
| Properties.WriteProperty | source/internal/minecraft/players.go:218-236 | The in-place loop replaces every line of the key, keeps all others, and appends one if there was none. |
| Properties.ReadAfterWrite | source/internal/minecraft/players.go:198-236 | Reading after writing gives the old map updated at the key, duplicates included. |
| Properties.OtherLinesKept | source/internal/minecraft/players.go:216-236 | Comments and other keys' lines keep their text and position. |
| Properties.WorldDirCarries | source/internal/minecraft/players.go:258-267 | Whatever the file holds, the world name read from it can be written back as the level name. |
| Properties.GoodWorldIff | source/internal/minecraft/players.go:258-267 | A world name is good if and only if it is not empty, not absolute and has no two dots in a row. |
| Properties.LevelNameNames | source/internal/minecraft/players.go:258-267 | A file whose one line is `level-name=` and a good name names the world directory. |
| Properties.DefaultWorld | source/internal/minecraft/players.go:258-267 | Without a file, or with no good level name in it, the world directory is `world`. |
| Properties.WorldDirAfterWrite | source/internal/minecraft/players.go:218-267 | Writing a world name as the level name makes it the world directory. |
| Restore.WorldNames | source/internal/backup/backup.go:465-478 | Exactly the archive's, the live and the default world, each once. |
| Restore.WantedWorldIff | source/internal/backup/backup.go:482-497 | A world restore takes exactly the world directories, names beginning with one and an underscore, and the players' data. |
| Restore.WantedConfigurationIff | source/internal/backup/backup.go:498-511 | A configuration restore takes exactly the named entries and those ending in .sh, .txt, .cfg or .toml; a full one everything. |
| Restore.SafeIff | source/internal/backup/backup.go:593-607 | Safe means that each replaced entry's old content is in place or in its sidecar or the archive's is in its place, and that nothing else changed but sidecars. |
| Restore.Disk.RemoveAll | source/internal/backup/backup.go:594 | Removes the entry, or on a fault leaves any part of it; no other entry changes. |
| Restore.Disk.Rename | source/internal/backup/backup.go:595-601 | Moves the entry over the target, or changes nothing. |
| Restore.Disk.MoveIn | source/internal/backup/backup.go:600-603 | Moves the archive's entry in, or changes nothing. |
| Restore.Disk.MoveAside | source/internal/backup/backup.go:593-599 | At each step the old content is at its name or in its sidecar; on success it is in the sidecar; the first step without a fault is the directory without the sidecar. |
| Restore.Disk.RestoreEntry | source/internal/backup/backup.go:589-607 | At each step of one entry everything stays safe and nothing else is touched; it fails only on a fault, and without one installs the entry and leaves no sidecar. |
| Restore.Disk.RestoreEntries | source/internal/backup/backup.go:584-608 | For all failing renames and removals: every selected entry's old content is in place, in its sidecar or replaced at every step, unless a selected name is another's sidecar and live, when a run without faults is unsafe; unselected entries never change, success means all are the archive's, and without a fault exactly the selection is installed. |
| Restore.Disk.RestoreBackup | source/internal/backup/backup.go:579-637 | Reports nothing exactly when nothing is selected, fails only on a fault, is safe at every step under the same condition, and a world-only restore that succeeds leaves the archive's world live if and only if no world is named like the properties file or the archive's is the default. |
| Restore.StaysSafe | source/internal/backup/backup.go:593-607 | Work on one entry and its sidecar cannot endanger another entry unless a selected sidecar's name stands for a live one. |
| Restore.InstalledStep | source/internal/backup/backup.go:585-608 | Entries can be put in one by one, a sidecar's name after the one it belongs to, with the result of putting them in at once. |
| Restore.LongerIsLater | source/internal/backup/backup.go:579-585 | In a listing by name an entry never comes after its own sidecar's name. |
| Restore.FirstDifference | source/internal/backup/backup.go:579-585 | Two names in a listing are ordered by their first difference. |
| Restore.ArchivedSidecarIsLost | source/internal/backup/backup.go:593-594 | When the turn comes of a live entry whose place was cleared as a sidecar before, clearing its own sidecar leaves nothing of it. |
| Restore.LiveSidecarIsUnsafe | source/internal/backup/backup.go:593-607 | In a run without faults the step that begins the turn of a live selected sidecar is unsafe. |
| Restore.AfterEntries | source/internal/backup/backup.go:624-625 | After the entries of a world-only restore the archive's world is still read correctly unless a world dragged the properties file along. |
| Restore.Repointed | source/internal/backup/backup.go:627-634 | After the rewrite the live world is the one written. |
| Restore.RepointCanFail | source/internal/backup/backup.go:624-634 | An archive for which the condition fails. |
| Restore.RestoreLiveSidecar | source/internal/backup/backup.go:579-608 | A full restore of "a" and its sidecar's name over a live entry of that name is unsafe unless some operation fails. |
| TailLines.Tail | source/internal/app/console_history.go:99-147 | For every file and limit, reading chunks backwards gives the last lines of the whole normalised file. |
| TailLines.TailIsEnough | source/internal/app/console_history.go:120-132 | Any tail with more than the limit's line ends already holds the answer, wherever it starts. |
| TailLines.JoinCRLFConcat | source/internal/app/console_history.go:134 | Normalising the whole ends in normalising the tail, even when the cut splits a CRLF. |
| TailLines.LinesAreWhole | source/internal/app/console_history.go:136-146 | At most the limit of lines come back, none with a line end in it. |
| TailLines.LinesMakeText | source/internal/app/console_history.go:136-142 | The lines, each ended by a line feed but a last one that is not empty, are the text. |
| TailLines.NormalisedLine | source/internal/app/console_history.go:134-135 | CR, LF and CRLF each become one line feed and nothing else changes. |
| Utf8.Decode | source/internal/supervisor/console_text.go:35 | Decoding always advances within the text and yields a Unicode scalar value. |
| Utf8.DecodeEncode | source/internal/supervisor/console_text.go:35-77 | Every scalar value, encoded and followed by anything, decodes to itself with its own length. |
| Utf8.DecodeEncodeAll | source/internal/supervisor/console_text.go:81-84 | Text written rune by rune reads back rune by rune. |
| Utf8.KnownEncodings | source/internal/supervisor/console_text.go:35 | Characters of two, three and four bytes as encoded, and what is no text: overlong forms, surrogates, stray and missing continuation bytes. |
| Sanitize.ScanEscape | source/internal/supervisor/console_text.go:91-130 | The scan of each escape family stops right after its first terminator, or at the end. |
| Sanitize.SanitizeLine | source/internal/supervisor/console_text.go:26-87 | The index loop with a resettable builder terminates on every byte string and writes the runes the line leaves on a terminal. |
| Sanitize.SanitizedIsPrintable | source/internal/supervisor/console_text.go:26-87 | The result is valid text with no escape, control, DEL or format character and bounded length. |
| Sanitize.ScanOfPrintable | source/internal/supervisor/console_text.go:76-78 | Printable text passes through unchanged whatever follows it. |
| Sanitize.CarriageReturnErases | source/internal/supervisor/console_text.go:46-52 | What stands before a carriage return does not matter. |
| Sanitize.CsiVanishes | source/internal/supervisor/console_text.go:96-103 | ESC [, parameter bytes and a final byte leave no trace, whatever printable text is before and whatever follows. |
| Sanitize.ControlStringVanishes | source/internal/supervisor/console_text.go:104-119 | Nor does an OSC string ended by BEL or ESC backslash, nor a DCS, PM or APC string ended by ESC backslash. |
| Sanitize.ShortEscapeVanishes | source/internal/supervisor/console_text.go:120-129 | Nor a character set selection with its byte, nor any other two-byte escape. |
| Sanitize.UnendedEscapeDropsRest | source/internal/supervisor/console_text.go:96-119 | A sequence that does not end takes the rest of the line with it. |
| Sanitize.CutEscapeVanishes | source/internal/supervisor/console_text.go:42-44 | An escape character, or a character set selection without its byte, at the end of the line leaves no trace. |
| Sanitize.UnseenVanishes | source/internal/supervisor/console_text.go:66-75 | Other controls, DEL and characters such as the soft hyphen, zero-width and direction marks leave no trace. |
| Sanitize.StrayByteVanishes | source/internal/supervisor/console_text.go:58-62 | A byte that is no text leaves no trace. |
| Sanitize.TabIsSpace | source/internal/supervisor/console_text.go:54-57 | A tab is shown as a space. |
| Sanitize.PrintableIsShown | source/internal/supervisor/console_text.go:76-85 | Printable text that does not end in a space is shown as it is, cut after 4000 characters. |
| Sanitize.TrimBytesTrimsRunes | source/internal/supervisor/console_text.go:81 | Trimming spaces from the bytes is trimming them from the runes. |
| Sanitize.SanitizeIsIdempotent | source/internal/supervisor/console_text.go:26-87 | Sanitizing twice is sanitizing once, truncated lines included. |
| Quoting.HexRoundTrip | source/internal/config/config.go:161 | A code point in hexadecimal digits reads back. |
| Quoting.UpperCaseHex | source/internal/config/config.go:161-165 | Hexadecimal digits are read in either case. |
| Quoting.UnquoteQuote | source/internal/config/config.go:161-220 | Every string comes back from its quoted form. |
| Quoting.NamedEscapes | source/internal/config/config.go:206-220 | The characters that are quoted with a letter of their own. |
| Quoting.OctalEscape | source/internal/config/config.go:161-165 | Three octal digits after a backslash stand for a character. |
| Quoting.RawText | source/internal/config/config.go:161-165 | Between backquotes text is taken as it stands but for carriage returns. |
| Quoting.SingleQuoted | source/internal/config/config.go:161-165 | One character may stand between single quotes, two may not. |
| Quoting.NotQuoted | source/internal/config/config.go:161-165 | Text that does not begin with a quote is not quoted. |
| Quoting.BadlyQuoted | source/internal/config/config.go:161-165 | Text that is cut short, goes on after its closing quote or holds a line end is not a quoted one. |
| Quoting.EscapeIsIdentityIff | source/internal/config/config.go:217-220 | Quoting leaves a string's body alone if and only if every character may stand bare. |
| Config.Load | source/internal/config/config.go:140-204 | The line loop applies the lines to the defaults in order. |
| Config.SettingReads | source/internal/config/config.go:151-165 | A written setting is recognised by its key with its value intact. |
| Config.KnownSettings | source/internal/config/config.go:207-233 | The settings as they are written. |
| Config.KnownValues | source/internal/config/config.go:210-231 | Numbers, negative ones too, and truth values as they are written. |
| Config.HostsRoundTripIff | source/internal/config/config.go:175-220 | The host list comes back if and only if every host is non-empty, printable and free of commas, quotes and backslashes. |
| Config.LoadSaveIff | source/internal/config/config.go:140-234 | Loading what was saved gives every field but the hosts back for certain, and the whole if and only if the hosts are such. |
| Paths.ParseToString | source/internal/security/security.go:31-32 | A cleaned path reads back as the components it stands for. |
| Paths.CleanIsIdempotent | source/internal/security/security.go:31-32 | Cleaning twice is cleaning once. |
| Paths.KnownCleans | source/internal/security/security.go:31-32 | How some paths are cleaned. |
| Paths.RelLeadsToTarget | source/internal/security/security.go:36 | Walking the relative path from the base ends at the target, for absolute and relative paths. |
| Paths.RelIff | source/internal/security/security.go:36-39 | There is a relative path exactly between two absolute or two relative paths when the target goes up at least as far as the base. |
| Paths.RelEscapesIff | source/internal/security/security.go:36-40 | There is a relative path that passes the string tests exactly when the base's components lead the target's and nothing goes up after them. |
| Paths.WithinRootIff | source/internal/security/security.go:30-41 | Holds if and only if the cleaned root is a component prefix of the cleaned candidate after which nothing goes up. |
| Paths.InsideAbsolute | source/internal/security/security.go:27-30 | For absolute paths that is plain component containment. |
| Paths.JoinWalks | source/internal/security/security.go:97 | Joining walks the parts' components from the root, whether it is absolute, relative or empty. |
| Paths.SafeJoinIff | source/internal/security/security.go:91-102 | For every root, accepts exactly the relative, NUL-free parts that lead back under it, and what it returns is clean, or empty when root and parts are, and under it. |
| Paths.CleanRelative | source/internal/files/archive.go:97-100 | A clean relative path that does not begin with ".." has none. |
| Paths.EntryPathExact | source/internal/files/archive.go:88-107 | For every destination, with backslashes read as slashes: exactly which entries are rejected and why, where every other lands, and that the final check never rejects. |
| RecoveryCodes.ApartStep | source/internal/auth/store.go:311-336 | Each statement keeps every issued code in exactly one of unused, replaced and used. |
| RecoveryCodes.CodeWorksOnce | source/internal/auth/store.go:293-336 | However logins and reissues interleave, a code lets at most one login through and is in one place only: unused, replaced or used. |
| RecoveryCodes.OnlyPassedLogins | source/internal/auth/store.go:293-336 | A code lets a login through only if one that passed its other checks offered it. |
| RecoveryCodes.LoginOutcome | source/internal/auth/store.go:293-336 | A passed login on an unused code goes through and uses it up; a failed one, or one on another code, changes nothing. |
| RecoveryCodes.IssueOutcome | source/internal/auth/store.go:311-330 | New codes replace the unused ones of their user and no one else's. |
| Invitations.ExplainedStep | source/internal/auth/store.go:459-481 | Each statement keeps that every account claimed its invitation or has a request that is yet to decide. |
| Invitations.ActivationOutcome | source/internal/auth/store.go:441-481 | An activation is admitted exactly for an invitation that is not used, revoked or expired, and undisturbed leaves an account that claimed it. |
| Invitations.OneAccountEach | source/internal/auth/store.go:441-481 | However activations and revocations interleave and whichever are given up, once no request with an account is undecided an invitation's accounts are exactly the one that claimed it. |
| Invitations.SettledStays | source/internal/auth/store.go:469-486 | A claimed or revoked invitation is never claimed afterwards, not even by a request admitted before. |

## Left out

- Time zones and daylight saving: the calendar is UTC. Overflow of instants other than the products named above, stored years beyond 9999 and the zero instant, which the code reads as no run, are not modelled.
- The missed-run pass at start-up (source/internal/scheduler/scheduler.go:417-439): it executes runs without a lease, so `AtMostOnce` is about ticks only.
- Executing a schedule's action, its retries and offline policies; editing the sequence of steps.
- Database errors other than a failing lease statement, crashes in the middle of a transaction, and users deleted while an activation is under way.
- Retention.Catalog.Prune: age limits beyond about 10^14 days, where the date arithmetic leaves 64 bits, and counters and byte sums beyond 2^63 are not modelled.
- Retention.Catalog.Delete: a failure happens before anything is removed; a row the database keeps after its archive was removed is not modelled.
- Retention.SortByAge: the order of records of the same second is arbitrary, as the source's sort leaves it.
- Ticker.Scheduler.Poll: one ticker whose schedules are not edited meanwhile; several tickers, edits, new and deleted schedules are the subject of `Leases`.
- Lifecycle.Supervisor.RequestRestart: only the flag; the stop it sends next is the separate step `RequestStop`, and other requests may come in between.
- Lifecycle.Supervisor.FinishStart: the two places that take the lock after a failed launch are one step.
- Waiting for the process, signals and process groups are reduced to exit events.
- Suppression.OperatorListStaysVisible: the five seconds run from the acceptance of the command, as in the code, not from the end of its write.
- Lines delivered to internal subscribers (player tracking).
- Backup creation, checksums, tar and zstd, extraction into staging and its limits; NormalizeScope's aliases; the emergency backup before a restore.
- Restore.Disk.RestoreBackup: the rewrite of the properties file happens at once or not at all; entries are whole trees; file modes and links are not modelled.
- Paths: Unix paths only; resolution of symbolic links (`EvalWithinRoot`, `safeSymlink`).
- Quoting.UnquoteQuote: strings of Unicode scalar values. Which characters are printable is a parameter of which only the newline matters; bytes that are not valid UTF-8 and escapes for them are not modelled.
- Sanitize: format characters are those of Unicode 15.
- Config.LoadSaveIff: the same for the strings of the configuration.
- Config: `BackupRoot`, `AtomicWrite` and read errors other than a missing file.
- RecoveryCodes, Invitations: hashes are taken as injective and fresh codes and account ids as distinct; passwords, TOTP, sessions and rate limiting.
- The cached console history, HTTP routes, audit log, web front end, bots, tunnel, probes and downloads.
