/** `nextCronTime`: the next minute at which a five-field cron expression fires. Times are nanoseconds
    since 1 January 1970, in UTC. */
module Cron {
  import opened Calendar
  import opened CronText
  import opened CronFields

  const MINUTE := 60_000_000_000
  const DAY_MINUTES := 1440
  const SEARCH := 366 * DAY_MINUTES * MINUTE

  datatype Schedule = Schedule(minutes: set<int>, hours: set<int>, days: set<int>, months: set<int>, weekdays: set<int>)

  datatype CronError = FieldCount(count: nat) | BadField(index: nat, problem: Problem) | NoMatch

  datatype Result<T> = Good(value: T) | Bad(error: CronError)

  /** The limits of the five fields. */
  function Low(i: nat): int { if i == 2 || i == 3 then 1 else 0 }

  function High(i: nat): int {
    if i == 0 then 59 else if i == 1 then 23 else if i == 2 then 31 else if i == 3 then 12 else 6
  }

  /** The first field that does not parse decides. */
  function ScheduleOf(spec: string): Result<Schedule> {
    var fields := Fields(spec);
    if |fields| != 5 then Bad(FieldCount(|fields|))
    else
      var f := seq(5, i requires 0 <= i < 5 => FieldOf(fields[i], Low(i), High(i)));
      if f[0].Err? then Bad(BadField(0, f[0].problem))
      else if f[1].Err? then Bad(BadField(1, f[1].problem))
      else if f[2].Err? then Bad(BadField(2, f[2].problem))
      else if f[3].Err? then Bad(BadField(3, f[3].problem))
      else if f[4].Err? then Bad(BadField(4, f[4].problem))
      else Good(Schedule(f[0].values, f[1].values, f[2].values, f[3].values, f[4].values))
  }

  /** The schedule names the minute `m`, counted from 1970. Day of month and weekday must both agree. */
  predicate Fires(s: Schedule, m: int) {
    && DateOf(m / DAY_MINUTES).month in s.months
    && DateOf(m / DAY_MINUTES).day in s.days
    && Weekday(m / DAY_MINUTES) in s.weekdays
    && m % DAY_MINUTES / 60 in s.hours
    && m % DAY_MINUTES % 60 in s.minutes
  }

  /** `m` is a whole minute after `after` and less than 366 days later. */
  predicate Sought(m: int, after: int) { after < m * MINUTE < after + SEARCH }

  /** The least sought minute at which the schedule fires. */
  ghost predicate IsNext(s: Schedule, after: int, t: int) {
    exists m :: t == m * MINUTE && Sought(m, after) && Fires(s, m)
           && forall k | Sought(k, after) && k < m :: !Fires(s, k)
  }

  // ---------------------------------------------------------------- the same over calendar dates

  /** A minute of a calendar day. */
  datatype Moment = Moment(date: Date, hour: int, minute: int)

  ghost predicate IsMoment(t: Moment) { Valid(t.date) && 0 <= t.hour < 24 && 0 <= t.minute < 60 }

  ghost function Instant(t: Moment): int
    requires IsMoment(t)
  {
    ((DayNumber(t.date) * 24 + t.hour) * 60 + t.minute) * 60_000_000_000
  }

  /** All five fields of the schedule agree with the moment. */
  ghost predicate Matches(s: Schedule, t: Moment)
    requires IsMoment(t)
  {
    && t.minute in s.minutes && t.hour in s.hours
    && t.date.day in s.days && t.date.month in s.months && WeekdayOf(t.date) in s.weekdays
  }

  /** The moment lies after `after` and less than 366 days later. */
  ghost predicate Within(t: Moment, after: int) {
    IsMoment(t) && after < Instant(t) < after + 366 * 24 * 60 * 60_000_000_000
  }

  /** The first moment after `after` at which the schedule matches. */
  ghost predicate IsNextMoment(s: Schedule, after: int, r: int) {
    exists t :: Within(t, after) && Instant(t) == r && Matches(s, t)
           && forall u | Within(u, after) && Instant(u) < r :: !Matches(s, u)
  }

  /** The minute number of a moment. */
  ghost function MinuteOf(t: Moment): int
    requires IsMoment(t)
  {
    MinuteAt(DayNumber(t.date), t.hour, t.minute)
  }

  /** Firing at a minute is matching its moment. */
  lemma FiresIff(s: Schedule, t: Moment)
    requires IsMoment(t)
    ensures Fires(s, MinuteOf(t)) <==> Matches(s, t)
    ensures MinuteOf(t) * MINUTE == Instant(t)
  {
    hide DateOf, DayNumber, WeekdayOf, Weekday, Valid, MinuteAt;
    MinuteParts(DayNumber(t.date), t.hour, t.minute);
    DateOfNumber(t.date);
    WeekdayIs(DayNumber(t.date));
    MinuteIsInstant(t);
  }

  lemma MinuteIsInstant(t: Moment)
    requires IsMoment(t)
    ensures MinuteOf(t) * MINUTE == Instant(t)
  {
    hide DayNumber, Valid;
  }

  /** Every minute is a moment's. */
  lemma MomentOf(m: int) returns (t: Moment)
    ensures IsMoment(t) && MinuteOf(t) == m
  {
    hide DateOf, DayNumber, Valid, MinuteAt;
    NumberOfDate(m / DAY_MINUTES);
    TimeOfDay(m);
    t := Moment(DateOf(m / DAY_MINUTES), m % DAY_MINUTES / 60, m % DAY_MINUTES % 60);
  }

  lemma SoughtIff(t: Moment, after: int)
    requires IsMoment(t)
    ensures Sought(MinuteOf(t), after) <==> Within(t, after)
  {
    hide MinuteOf, Instant;
    MinuteIsInstant(t);
  }

  lemma NextMoment(s: Schedule, after: int, r: int)
    requires IsNext(s, after, r)
    ensures IsNextMoment(s, after, r)
  {
    hide Fires, Matches, Sought, MinuteOf, Instant, IsMoment;
    var m :| r == m * MINUTE && Sought(m, after) && Fires(s, m) && forall k | Sought(k, after) && k < m :: !Fires(s, k);
    var t := MomentOf(m);
    FiresIff(s, t);
    SoughtIff(t, after);
    forall u | Within(u, after) && Instant(u) < r ensures !Matches(s, u) {
      FiresIff(s, u);
      SoughtIff(u, after);
    }
  }

  lemma NoMoment(s: Schedule, after: int)
    requires forall m | Sought(m, after) :: !Fires(s, m)
    ensures forall t | Within(t, after) :: !Matches(s, t)
  {
    hide Fires, Matches, Sought, MinuteOf, Instant, IsMoment;
    forall t | Within(t, after) ensures !Matches(s, t) {
      FiresIff(s, t);
      SoughtIff(t, after);
    }
  }

  // ---------------------------------------------------------------- the code

  method NextCronTime(spec: string, after: int) returns (r: Result<int>)
    ensures ScheduleOf(spec).Bad? ==> r == Bad(ScheduleOf(spec).error)
    ensures ScheduleOf(spec).Good? ==>
              var s := ScheduleOf(spec).value;
              && (r.Good? ==> IsNextMoment(s, after, r.value))
              && (r.Bad? ==> r.error == NoMatch && forall t | Within(t, after) :: !Matches(s, t))
  {
    hide Fields, FieldOf, Fires, IsNext, IsNextMoment, Within, Matches, Sought;
    var fields := Fields(spec);
    if |fields| != 5 { return Bad(FieldCount(|fields|)); }
    var minuteSet := ParseCronField(fields[0], 0, 59);
    if minuteSet.Err? { return Bad(BadField(0, minuteSet.problem)); }
    var hourSet := ParseCronField(fields[1], 0, 23);
    if hourSet.Err? { return Bad(BadField(1, hourSet.problem)); }
    var domSet := ParseCronField(fields[2], 1, 31);
    if domSet.Err? { return Bad(BadField(2, domSet.problem)); }
    var monthSet := ParseCronField(fields[3], 1, 12);
    if monthSet.Err? { return Bad(BadField(3, monthSet.problem)); }
    var dowSet := ParseCronField(fields[4], 0, 6);
    if dowSet.Err? { return Bad(BadField(4, dowSet.problem)); }
    var s := Schedule(minuteSet.values, hourSet.values, domSet.values, monthSet.values, dowSet.values);
    r := Search(s, after);
    if r.Good? { NextMoment(s, after, r.value); } else { NoMoment(s, after); }
  }

  /** The loop that steps minute by minute. */
  method Search(s: Schedule, after: int) returns (r: Result<int>)
    ensures r.Good? ==> IsNext(s, after, r.value)
    ensures r.Bad? ==> r.error == NoMatch && forall m | Sought(m, after) :: !Fires(s, m)
  {
    hide DateOf;
    var t := after - after % MINUTE + MINUTE;
    ghost var m := after / MINUTE + 1;
    var limit := after + SEARCH;
    while t < limit
      invariant t == m * MINUTE && after < t
      invariant forall k | Sought(k, after) && k < m :: !Fires(s, k)
      decreases limit - t
    {
      var day, minute := t / MINUTE / DAY_MINUTES, t / MINUTE % DAY_MINUTES;
      var date := DateOf(day);
      if date.month in s.months && date.day in s.days && Weekday(day) in s.weekdays
         && minute / 60 in s.hours && minute % 60 in s.minutes
      {
        assert Sought(m, after) && Fires(s, m);
        return Good(t);
      }
      assert !Fires(s, m);
      t := t + MINUTE;
      m := m + 1;
    }
    r := Bad(NoMatch);
  }

  // ---------------------------------------------------------------- schedules that always fire again

  /** A schedule without weekday restriction that names a time of day and a date every year has. */
  ghost predicate Yearly(s: Schedule, month: int, day: int, hour: int, minute: int) {
    && (forall w | 0 <= w <= 6 :: w in s.weekdays)
    && EveryYear(month, day) && month in s.months && day in s.days
    && 0 <= hour <= 23 && hour in s.hours && 0 <= minute <= 59 && minute in s.minutes
  }

  function MinuteAt(n: int, hour: int, minute: int): int { n * DAY_MINUTES + hour * 60 + minute }

  lemma MinuteParts(n: int, hour: int, minute: int)
    requires 0 <= hour <= 23 && 0 <= minute <= 59
    ensures var m := MinuteAt(n, hour, minute);
            m / DAY_MINUTES == n && m % DAY_MINUTES / 60 == hour && m % DAY_MINUTES % 60 == minute
  {
  }

  lemma FiresAt(s: Schedule, month: int, day: int, hour: int, minute: int, n: int)
    requires Yearly(s, month, day, hour, minute) && DateOf(n).month == month && DateOf(n).day == day
    ensures Fires(s, MinuteAt(n, hour, minute))
  {
    hide DateOf, MinuteAt;
    MinuteParts(n, hour, minute);
    assert 0 <= Weekday(n) <= 6;
  }

  /** Within 366 days of any instant, the last one included, such a schedule fires at its time of day on its
      date; if only at the very last instant, the first one was that date too. */
  lemma FiresWithinYear(s: Schedule, month: int, day: int, hour: int, minute: int, after: int) returns (m: int, k: int)
    requires Yearly(s, month, day, hour, minute)
    ensures m == MinuteAt(k, hour, minute) && DateOf(k).month == month && DateOf(k).day == day
    ensures Fires(s, m) && after < m * MINUTE <= after + SEARCH
    ensures m * MINUTE == after + SEARCH ==>
              Fires(s, m - 366 * DAY_MINUTES) && DateOf(k - 366).month == month && DateOf(k - 366).day == day
  {
    hide DateOf, Fires, Yearly;
    var today := after / MINUTE / DAY_MINUTES;
    var now := MinuteAt(today, hour, minute);
    TodayBounds(after, hour, minute, today, s, month, day);
    k := NextAnniversary(if after < now * MINUTE then today - 1 else today, month, day);
    m := MinuteAt(k, hour, minute);
    FiresAt(s, month, day, hour, minute, k);
    Later(today, k, hour, minute);
    if m * MINUTE == after + SEARCH {
      FiresAt(s, month, day, hour, minute, today);
    }
  }

  lemma TodayBounds(after: int, hour: int, minute: int, today: int, s: Schedule, month: int, day: int)
    requires Yearly(s, month, day, hour, minute) && today == after / MINUTE / DAY_MINUTES
    ensures EveryYear(month, day)
    ensures MinuteAt(today, 0, 0) * MINUTE <= after < (MinuteAt(today, 0, 0) + DAY_MINUTES) * MINUTE
    ensures 0 <= MinuteAt(today, hour, minute) - MinuteAt(today, 0, 0) < DAY_MINUTES
  {
  }

  lemma Later(n: int, k: int, hour: int, minute: int)
    ensures MinuteAt(k, hour, minute) == MinuteAt(n, hour, minute) + (k - n) * DAY_MINUTES
  {
  }

  /** `after` is the minute `m` of the schedule, which then stays silent for exactly 366 days. */
  ghost predicate LeapGap(s: Schedule, after: int, m: int) {
    && after == m * MINUTE && Fires(s, m) && Fires(s, m + 366 * DAY_MINUTES)
    && forall k | m < k < m + 366 * DAY_MINUTES :: !Fires(s, k)
  }

  /** Such a schedule never errs, unless `after` is itself one of its minutes and the next is exactly 366
      days away. */
  lemma YearlyErrsIff(s: Schedule, month: int, day: int, hour: int, minute: int, after: int)
    requires Yearly(s, month, day, hour, minute)
    ensures (forall m | Sought(m, after) :: !Fires(s, m)) <==> exists m :: LeapGap(s, after, m)
  {
    hide Fires, Yearly;
    if forall m | Sought(m, after) :: !Fires(s, m) {
      var next, _ := FiresWithinYear(s, month, day, hour, minute, after);
      assert !Sought(next, after);
      assert LeapGap(s, after, next - 366 * DAY_MINUTES);
    }
  }

  /** The schedule has one time of day and, even in a leap year, one date. */
  ghost predicate OneMoment(s: Schedule, month: int, day: int, hour: int, minute: int) {
    && (forall h | 0 <= h <= 23 && h in s.hours :: h == hour)
    && (forall n | 0 <= n <= 59 && n in s.minutes :: n == minute)
    && forall mo, da | mo in s.months && da in s.days && LeapDate(mo, da) :: mo == month && da == day
  }

  /** `after` is that moment, and a 29 February lies in the year ahead. */
  ghost predicate AtMoment(after: int, month: int, day: int, hour: int, minute: int) {
    var n := after / MINUTE / DAY_MINUTES;
    && after == MinuteAt(n, hour, minute) * MINUTE
    && DateOf(n).month == month && DateOf(n).day == day && LeapAhead(DateOf(n).year, month)
  }

  lemma SoughtBetween(n: int, hour: int, minute: int, k: int, h: int, mi: int)
    requires 0 <= hour <= 23 && 0 <= minute <= 59 && 0 <= h <= 23 && 0 <= mi <= 59
    requires MinuteAt(n, hour, minute) < MinuteAt(k, h, mi) < MinuteAt(n, hour, minute) + 366 * DAY_MINUTES
    ensures Sought(MinuteAt(k, h, mi), MinuteAt(n, hour, minute) * MINUTE)
  {
  }

  /** Another time of day would be met on the first or the last day. */
  lemma OtherTime(n: int, hour: int, minute: int, h: int, mi: int) returns (k: int)
    requires 0 <= hour <= 23 && 0 <= minute <= 59 && 0 <= h <= 23 && 0 <= mi <= 59 && !(h == hour && mi == minute)
    ensures k == n || k == n + 366
    ensures Sought(MinuteAt(k, h, mi), MinuteAt(n, hour, minute) * MINUTE)
  {
    k := if h * 60 + mi > hour * 60 + minute then n else n + 366;
    SoughtBetween(n, hour, minute, k, h, mi);
  }

  lemma FiresAtTime(s: Schedule, month: int, day: int, hour: int, minute: int, k: int, h: int, mi: int)
    requires Yearly(s, month, day, hour, minute) && DateOf(k).month in s.months && DateOf(k).day in s.days
    requires 0 <= h <= 23 && h in s.hours && 0 <= mi <= 59 && mi in s.minutes
    ensures Fires(s, MinuteAt(k, h, mi))
  {
    hide DateOf, MinuteAt;
    MinuteParts(k, h, mi);
    assert 0 <= Weekday(k) <= 6;
  }

  /** A silent year leaves no room for another time or date. */
  lemma SilentIsOneMoment(s: Schedule, month: int, day: int, hour: int, minute: int, n: int)
    requires Yearly(s, month, day, hour, minute)
    requires DateOf(n).month == month && DateOf(n).day == day && LeapAhead(DateOf(n).year, month)
    requires DateOf(n + 366).month == month && DateOf(n + 366).day == day
    requires forall m | Sought(m, MinuteAt(n, hour, minute) * MINUTE) :: !Fires(s, m)
    ensures OneMoment(s, month, day, hour, minute)
  {
    hide DateOf, MinuteAt, Fires, Sought, LeapDate, LeapAhead, EveryYear, Weekday;
    forall h | 0 <= h <= 23 && h in s.hours ensures h == hour {
      if h != hour {
        var k := OtherTime(n, hour, minute, h, minute);
        FiresAtTime(s, month, day, hour, minute, k, h, minute);
      }
    }
    forall mi | 0 <= mi <= 59 && mi in s.minutes ensures mi == minute {
      if mi != minute {
        var k := OtherTime(n, hour, minute, hour, mi);
        FiresAtTime(s, month, day, hour, minute, k, hour, mi);
      }
    }
    forall mo, da | mo in s.months && da in s.days && LeapDate(mo, da) ensures mo == month && da == day {
      if !(mo == month && da == day) {
        var q := OtherDate(n, month, day, mo, da);
        FiresAtTime(s, month, day, hour, minute, q, hour, minute);
        DaysBetween(n, q, hour, minute);
        SoughtBetween(n, hour, minute, q, hour, minute);
      }
    }
  }

  lemma DaysBetween(n: int, q: int, hour: int, minute: int)
    requires n < q < n + 366
    ensures MinuteAt(n, hour, minute) < MinuteAt(q, hour, minute) < MinuteAt(n, hour, minute) + 366 * DAY_MINUTES
  {
  }

  lemma SilentIsAtMoment(s: Schedule, month: int, day: int, hour: int, minute: int, after: int) returns (n: int)
    requires Yearly(s, month, day, hour, minute)
    requires forall m | Sought(m, after) :: !Fires(s, m)
    ensures n == after / MINUTE / DAY_MINUTES && after == MinuteAt(n, hour, minute) * MINUTE
    ensures DateOf(n).month == month && DateOf(n).day == day && LeapAhead(DateOf(n).year, month)
    ensures DateOf(n + 366).month == month && DateOf(n + 366).day == day
  {
    hide DateOf, Fires, LeapAhead, EveryYear;
    var next, k := FiresWithinYear(s, month, day, hour, minute, after);
    assert !Sought(next, after);
    n := k - 366;
    Later(n, k, hour, minute);
    DayOf(after, n, hour, minute);
    LeapYearBetween(s, month, day, hour, minute, n);
  }

  lemma DayOf(after: int, n: int, hour: int, minute: int)
    requires 0 <= hour <= 23 && 0 <= minute <= 59 && after == MinuteAt(n, hour, minute) * MINUTE
    ensures n == after / MINUTE / DAY_MINUTES
  {
  }

  /** Otherwise the anniversary would come a day earlier. */
  lemma LeapYearBetween(s: Schedule, month: int, day: int, hour: int, minute: int, n: int)
    requires Yearly(s, month, day, hour, minute) && DateOf(n).month == month && DateOf(n).day == day
    requires forall m | Sought(m, MinuteAt(n, hour, minute) * MINUTE) :: !Fires(s, m)
    ensures LeapAhead(DateOf(n).year, month)
  {
    hide DateOf, DayNumber, Fires, MinuteAt, LeapAhead, EveryYear, Valid, Sought;
    var y := DateOf(n).year;
    NumberOfDate(n);
    EveryYearValid(y, month, day);
    EveryYearValid(y + 1, month, day);
    YearApartIff(y, month, day);
    if !LeapAhead(y, month) {
      DateOfNumber(Date(y + 1, month, day));
      FiresAt(s, month, day, hour, minute, n + 365);
      DaysBetween(n, n + 365, hour, minute);
      SoughtBetween(n, hour, minute, n + 365, hour, minute);
    }
  }

  /** A minute sought in the year of the schedule's one moment does not fire. */
  lemma OneMomentIsSilent(s: Schedule, month: int, day: int, hour: int, minute: int, after: int, m: int)
    requires Yearly(s, month, day, hour, minute) && OneMoment(s, month, day, hour, minute)
    requires AtMoment(after, month, day, hour, minute) && Sought(m, after)
    ensures !Fires(s, m)
  {
    hide DateOf, LeapAhead, LeapDate, EveryYear, Valid, Weekday;
    if Fires(s, m) {
      var k := m / DAY_MINUTES;
      ValidIsLeapDate(DateOf(k));
      TimeOfDay(m);
      SameDateNotBetween(after / MINUTE / DAY_MINUTES, month, day, k);
    }
  }

  lemma TimeOfDay(m: int)
    ensures 0 <= m % DAY_MINUTES / 60 <= 23 && 0 <= m % DAY_MINUTES % 60 <= 59
    ensures m == MinuteAt(m / DAY_MINUTES, m % DAY_MINUTES / 60, m % DAY_MINUTES % 60)
  {
  }

  /** What a caller can check beforehand: a yearly schedule errs iff it names a single moment of the year,
      `after` is that moment, and a 29 February lies in the year ahead. */
  lemma YearlyErrsWhen(s: Schedule, month: int, day: int, hour: int, minute: int, after: int)
    requires Yearly(s, month, day, hour, minute)
    ensures (forall m | Sought(m, after) :: !Fires(s, m)) <==>
            OneMoment(s, month, day, hour, minute) && AtMoment(after, month, day, hour, minute)
  {
    hide DateOf, Fires, Yearly, OneMoment, LeapAhead, Sought;
    if forall m | Sought(m, after) :: !Fires(s, m) {
      var n := SilentIsAtMoment(s, month, day, hour, minute, after);
      SilentIsOneMoment(s, month, day, hour, minute, n);
    }
    if OneMoment(s, month, day, hour, minute) && AtMoment(after, month, day, hour, minute) {
      forall m | Sought(m, after) ensures !Fires(s, m) {
        OneMomentIsSilent(s, month, day, hour, minute, after, m);
      }
    }
  }

  /** The exception is real: started at midnight of 1 March 2023, a schedule for midnights of 1 March errs,
      because the next one is 366 days away. */
  lemma FirstOfMarchErrs(s: Schedule, m: int)
    requires s.minutes == {0} && s.hours == {0} && s.days == {1} && s.months == {3}
    requires Sought(m, DayNumber(Date(2023, 3, 1)) * DAY_MINUTES * MINUTE)
    ensures !Fires(s, m)
  {
    hide DateOf;
    MarchApart();
    if Fires(s, m) {
      OnlyMarch(m / DAY_MINUTES);
      assert false;
    }
  }

  lemma MarchApart()
    ensures DayNumber(Date(2024, 3, 1)) == DayNumber(Date(2023, 3, 1)) + 366
  {
    MonthTable(2023);
    MonthTable(2024);
  }

  lemma OnlyMarch(n: int)
    requires DayNumber(Date(2023, 3, 1)) <= n <= DayNumber(Date(2024, 3, 1))
    requires DateOf(n).month == 3 && DateOf(n).day == 1
    ensures n == DayNumber(Date(2023, 3, 1)) || n == DayNumber(Date(2024, 3, 1))
  {
    hide DayNumber, DateOf;
    NotBefore(n, Date(2023, 3, 1));
    NotAfter(n, Date(2024, 3, 1));
    NumberOfDate(n);
  }

  // ---------------------------------------------------------------- writing and reading schedules

  predicate WellFormedField(ts: seq<Term>, min: int, max: int) {
    ts != [] && forall j | 0 <= j < |ts| :: WellFormed(ts[j], min, max)
  }

  /** The five fields in their order, each within its limits. */
  predicate WellFormedFields(fs: seq<seq<Term>>) {
    && |fs| == 5
    && WellFormedField(fs[0], 0, 59) && WellFormedField(fs[1], 0, 23) && WellFormedField(fs[2], 1, 31)
    && WellFormedField(fs[3], 1, 12) && WellFormedField(fs[4], 0, 6)
  }

  function FieldText(ts: seq<Term>): string
    requires ts != []
  {
    Join(Texts(ts), ',')
  }

  function FieldTexts(fs: seq<seq<Term>>): seq<string>
    requires forall i | 0 <= i < |fs| :: fs[i] != []
  {
    seq(|fs|, i requires 0 <= i < |fs| => FieldText(fs[i]))
  }

  lemma {:induction false} JoinSolid(parts: seq<string>)
    requires parts != [] && forall i | 0 <= i < |parts| :: Solid(parts[i]) && parts[i] != []
    ensures Solid(Join(parts, ',')) && Join(parts, ',') != []
  {
    if |parts| > 1 { JoinSolid(parts[1..]); }
  }

  lemma FieldTextSolid(ts: seq<Term>)
    requires ts != []
    ensures Solid(FieldText(ts)) && FieldText(ts) != []
  {
    hide Text, Plain, Solid, Join;
    forall i | 0 <= i < |ts| ensures Solid(Texts(ts)[i]) && Texts(ts)[i] != [] {
      TextPlain(ts[i]);
      PlainIsSolid(Text(ts[i]));
    }
    JoinSolid(Texts(ts));
  }

  /** The schedule five lists of terms stand for. */
  function MeaningOf(fs: seq<seq<Term>>): Schedule
    requires WellFormedFields(fs)
  {
    Schedule(Union(fs[0], 0, 59), Union(fs[1], 0, 23), Union(fs[2], 1, 31), Union(fs[3], 1, 12), Union(fs[4], 0, 6))
  }

  lemma FieldReads(fs: seq<seq<Term>>, i: nat)
    requires WellFormedFields(fs) && i < 5
    ensures 0 <= Low(i) <= High(i) < 1000
    ensures FieldOf(FieldText(fs[i]), Low(i), High(i)) == Ok(Union(fs[i], Low(i), High(i)))
  {
    hide FieldOf, Union, WellFormed, Texts, Join;
    FieldRoundTrip(fs[i], Low(i), High(i));
  }

  /** Any five lists of terms, written out with commas and with any white space around the fields, parse to the sets
      they stand for. */
  lemma ScheduleRoundTrip(gaps: seq<string>, fs: seq<seq<Term>>)
    requires |gaps| == 6 && Gaps(gaps) && WellFormedFields(fs)
    ensures ScheduleOf(Spaced(gaps, FieldTexts(fs))) == Good(MeaningOf(fs))
  {
    hide FieldOf, Fields, Spaced, Solid, Blank, Gaps, Union, WellFormed, Texts, Join, FieldText;
    var texts := FieldTexts(fs);
    forall i | 0 <= i < 5 ensures texts[i] != [] && Solid(texts[i]) {
      FieldTextSolid(fs[i]);
    }
    FieldsSpaced(gaps, texts);
    FieldReads(fs, 0);
    FieldReads(fs, 1);
    FieldReads(fs, 2);
    FieldReads(fs, 3);
    FieldReads(fs, 4);
  }

  /** A text is a schedule iff it has five fields that all parse within their limits; otherwise the number of fields
      or the first field that does not parse is to blame. */
  lemma ScheduleErrs(spec: string)
    ensures var fields := Fields(spec);
            if |fields| != 5 then ScheduleOf(spec) == Bad(FieldCount(|fields|))
            else
              var a, b, c := FieldOf(fields[0], 0, 59), FieldOf(fields[1], 0, 23), FieldOf(fields[2], 1, 31);
              var d, e := FieldOf(fields[3], 1, 12), FieldOf(fields[4], 0, 6);
              && (ScheduleOf(spec).Good? <==> a.Ok? && b.Ok? && c.Ok? && d.Ok? && e.Ok?)
              && (a.Err? ==> ScheduleOf(spec) == Bad(BadField(0, a.problem)))
              && (a.Ok? && b.Err? ==> ScheduleOf(spec) == Bad(BadField(1, b.problem)))
              && (a.Ok? && b.Ok? && c.Err? ==> ScheduleOf(spec) == Bad(BadField(2, c.problem)))
              && (a.Ok? && b.Ok? && c.Ok? && d.Err? ==> ScheduleOf(spec) == Bad(BadField(3, d.problem)))
              && (a.Ok? && b.Ok? && c.Ok? && d.Ok? && e.Err? ==> ScheduleOf(spec) == Bad(BadField(4, e.problem)))
  {
    hide FieldOf, Fields;
  }

  // ---------------------------------------------------------------- restricted weekdays

  lemma NotBefore(n: int, d: Date)
    requires Valid(d) && DayNumber(d) <= n
    ensures !Before(DateOf(n), d)
  {
    hide DayNumber, DateOf, Before;
    NumberOfDate(n);
    if Before(DateOf(n), d) { NumbersOrdered(DateOf(n), d); }
  }

  lemma NotAfter(n: int, d: Date)
    requires Valid(d) && n <= DayNumber(d)
    ensures !Before(d, DateOf(n))
  {
    hide DayNumber, DateOf, Before;
    NumberOfDate(n);
    if Before(d, DateOf(n)) { NumbersOrdered(d, DateOf(n)); }
  }

  lemma Thirteenths1999()
    ensures DayNumber(Date(1999, 9, 13)) == 10847 && DayNumber(Date(1999, 10, 13)) == 10877
    ensures DayNumber(Date(1999, 11, 13)) == 10908 && DayNumber(Date(1999, 12, 13)) == 10938
  {
    hide DaysBeforeMonth;
    MonthTable(1999);
  }

  lemma Thirteenths2000()
    ensures DayNumber(Date(2000, 1, 13)) == 10969 && DayNumber(Date(2000, 2, 13)) == 11000
    ensures DayNumber(Date(2000, 3, 13)) == 11029 && DayNumber(Date(2000, 4, 13)) == 11060
    ensures DayNumber(Date(2000, 5, 13)) == 11090 && DayNumber(Date(2000, 6, 13)) == 11121
    ensures DayNumber(Date(2000, 7, 13)) == 11151 && DayNumber(Date(2000, 8, 13)) == 11182
  {
    hide DaysBeforeMonth;
    MonthTable(2000);
  }

  /** None of these days is a Friday. */
  lemma NotFridays()
    ensures Weekday(10847) == 1 && Weekday(10877) == 3 && Weekday(10908) == 6 && Weekday(10938) == 1
    ensures Weekday(10969) == 4 && Weekday(11000) == 0 && Weekday(11029) == 1 && Weekday(11060) == 4
    ensures Weekday(11090) == 6 && Weekday(11121) == 2 && Weekday(11151) == 4 && Weekday(11182) == 0
  {
  }

  /** No thirteenth from 14 August 1999 to 14 August 2000 is a Friday. */
  lemma NoFriday(n: int)
    requires DayNumber(Date(1999, 8, 14)) <= n <= DayNumber(Date(2000, 8, 14))
    ensures DateOf(n).day == 13 ==> Weekday(n) != 5
  {
    hide DayNumber, DateOf, Weekday;
    NotBefore(n, Date(1999, 8, 14));
    NotAfter(n, Date(2000, 8, 14));
    NumberOfDate(n);
    Thirteenths1999();
    Thirteenths2000();
    NotFridays();
    var d := DateOf(n);
    if d.day == 13 { assert d == Date(d.year, d.month, 13); }
  }

  /** Day of month and weekday must both agree, so the yearly guarantee needs the free weekday: every
      "Friday the 13th" schedule errs for all of 14 August 1999. */
  lemma FridayThirteenthErrs(s: Schedule, after: int, m: int)
    requires s.days == {13} && s.weekdays == {5}
    requires after / MINUTE / DAY_MINUTES == DayNumber(Date(1999, 8, 14)) && Sought(m, after)
    ensures !Fires(s, m)
  {
    hide DateOf;
    AugustApart();
    NoFriday(m / DAY_MINUTES);
  }

  lemma AugustApart()
    ensures DayNumber(Date(2000, 8, 14)) == DayNumber(Date(1999, 8, 14)) + 366
  {
    MonthTable(1999);
    MonthTable(2000);
  }
}
