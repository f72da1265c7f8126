/** The daily step at midnight: the hourly tick that writes the day's last hour comes later, unless it fires
    on the hour. */
module MetricMidnight {
  import opened MetricTiers
  import opened MetricExactness
  import opened MetricRuns
  import opened MetricHours
  import opened MetricDays
  import opened MetricHeard
  import opened MetricSchedule

  /** Every hourly step is some on-time tick of the hourly ticker. */
  ghost predicate HourlyOnly(es: seq<Event>, s: int) {
    forall i | 0 <= i < |es| && es[i].TickHour? :: exists j :: OnTime(es[i].now, s, HOUR, j)
  }

  lemma HourNotYet(es: seq<Event>, now: int, s: int, g: nat, h: int)
    requires Clocked(es, now) && HourlyOnly(es, s) && g < |es|
    requires h % HOUR == 0 && es[g].now < h + HOUR + (s + EPOCH) % HOUR
    ensures NoHour(es[..g], h)
  {
    hide Clocked;
    forall i | 0 <= i < g && es[i].TickHour? ensures Truncate(es[i].now, HOUR) != h + HOUR {
      var j :| OnTime(es[i].now, s, HOUR, j);
      OnTimeIff(es[i].now, s, HOUR, j);
      ClockOrder(es, now, i, g);
    }
    assert forall i | 0 <= i < g :: es[..g][i] == es[i];
  }

  lemma ClockOrder(es: seq<Event>, now: int, i: nat, g: nat)
    requires Clocked(es, now) && i <= g < |es|
    ensures es[i].now <= es[g].now
  {
  }

  /** The daily step ran at `g`, between midnight and the next hourly tick. */
  ghost predicate MidnightStep(es: seq<Event>, s: int, d: int, hours: nat, g: nat) {
    && g < |es| && es[g].TickDay? && es[g].dayStart == d && es[g].dayEnd == d + hours * HOUR && d % HOUR == 0
    && d + hours * HOUR <= es[g].now < d + hours * HOUR + (s + EPOCH) % HOUR
    && (forall j | 0 <= j < |es| && es[j].TickDay? && es[j].dayStart == d :: j == g)
  }

  /** The hourly tick whose window starts at `h`. */
  function HourNumber(s: int, h: int): int { (h - Truncate(s, HOUR)) / HOUR + 1 }

  lemma HourNumberIs(s: int, h: int)
    requires h % HOUR == 0
    ensures HourWindow(s, HourNumber(s, h)) == h
  {
    TruncateFacts(s, HOUR);
    HoursDiffer(Truncate(s, HOUR), h);
  }

  /** Whatever the hourly ticker's phase, as long as it is not zero: the day's last hour is still missing when
      the daily step runs, and if the hours before it were complete, the day's row is, for good, theirs. */
  lemma MidnightDay(es: seq<Event>, now: int, s: int, series: Series, d: int, hours: nat, g: nat)
    requires Clocked(es, now) && Prompt(es, s) && HourlyOnly(es, s)
    requires 1 <= hours <= 25 && MidnightStep(es, s, d, hours, g)
    requires forall i | 0 <= i < hours - 1 :: HourDone(es[..g], d + i * HOUR)
    ensures DaySlot(Run(es).daily, Inserted(es), series, d, hours - 1)
  {
    hide Clocked, Prompt, Quiet, NoHour, HourDone, HourlyOnly, DaySlot, Run, Inserted, Truncate;
    LastHourMissing(es, now, s, d, hours, g);
    assert DayDoneAt(es, d, hours, hours - 1, g);
    DayExact(es, now, series, d, hours, hours - 1);
  }

  lemma LastHourMissing(es: seq<Event>, now: int, s: int, d: int, hours: nat, g: nat)
    requires Clocked(es, now) && Prompt(es, s) && HourlyOnly(es, s)
    requires 1 <= hours <= 25 && MidnightStep(es, s, d, hours, g)
    ensures NoHour(es[..g], d + (hours - 1) * HOUR)
    ensures Quiet(es, g, d, d + (hours - 1) * HOUR)
  {
    hide Clocked, Prompt, Quiet, NoHour, HourlyOnly;
    HourNotYet(es, now, s, g, d + (hours - 1) * HOUR);
    PhaseBelow(s);
    PromptQuiet(es, now, s, g, d, d + (hours - 1) * HOUR);
  }

  lemma PhaseBelow(s: int)
    ensures 0 <= (s + EPOCH) % FIVE_MINUTES < FIVE_MINUTES
  {
  }

  /** Started five minutes or more into an hour, with every step inside its period and prompt samples: the
      day's row is, for good, the exact row of all hours but the last. */
  lemma ScheduledDay(es: seq<Event>, now: int, s: int, series: Series, d: int, hours: nat, g: nat)
    requires Clocked(es, now) && Prompt(es, s) && HourlyOnly(es, s)
    requires (s + EPOCH) % HOUR >= FIVE_MINUTES
    requires 1 <= hours <= 25 && MidnightStep(es, s, d, hours, g)
    requires d > Truncate(s, HOUR)
    requires FiveTicks(es, s, 12 * HourNumber(s, d + (hours - 2) * HOUR))
    requires forall j | 1 <= j < HourNumber(s, d + (hours - 1) * HOUR) :: HourTick(es, s, j)
    ensures DaySlot(Run(es).daily, Inserted(es), series, d, hours - 1)
  {
    hide Clocked, Prompt, HourDone, HourTick, FiveTicks, HourNumber, HourlyOnly, DaySlot, Run, Inserted, Truncate;
    forall i | 0 <= i < hours - 1 ensures HourDone(es[..g], d + i * HOUR) {
      ScheduledHourOfDay(es, now, s, d, hours, g, i);
    }
    MidnightDay(es, now, s, series, d, hours, g);
  }

  lemma ScheduledHourOfDay(es: seq<Event>, now: int, s: int, d: int, hours: nat, g: nat, i: nat)
    requires Clocked(es, now) && Prompt(es, s)
    requires (s + EPOCH) % HOUR >= FIVE_MINUTES
    requires MidnightStep(es, s, d, hours, g) && i < hours - 1
    requires d > Truncate(s, HOUR)
    requires FiveTicks(es, s, 12 * HourNumber(s, d + (hours - 2) * HOUR))
    requires forall j | 1 <= j < HourNumber(s, d + (hours - 1) * HOUR) :: HourTick(es, s, j)
    ensures HourDone(es[..g], d + i * HOUR)
  {
    hide Clocked, Prompt, HourTick, FiveTick, HourDone;
    var j := HourNumber(s, d + i * HOUR);
    HourNumberIs(s, d + i * HOUR);
    TruncateFacts(s, HOUR);
    TruncateFacts(s, FIVE_MINUTES);
    PrefixKeeps(es, now, s, g);
    HourTickBefore(es, now, s, j, g);
    forall k | 1 <= k <= 12 * j - 1 ensures FiveTick(es[..g], s, k) {
      FiveTickBefore(es, now, s, k, g);
    }
    ScheduledHour(es[..g], es[g].now, s, j);
  }

  // ---------------------------------------------------------------- days of raced hours

  /** The hour at `h` has one hourly step, before which the coincident 5-minute step had run. */
  ghost predicate BucketFirst(es: seq<Event>, s: int, h: int) {
    exists i: nat :: i < |es| && HourStepAt(es, s, HourNumber(s, h), i) && FiveTick(es[..i], s, 12 * HourNumber(s, h))
  }

  /** The last buckets of those of a day's first hours whose race the hourly step won. */
  ghost function LostBuckets(es: seq<Event>, s: int, d: int, hours: nat): set<int> {
    set i | 0 <= i < hours - 1 && !BucketFirst(es, s, d + i * HOUR) :: d + i * HOUR + 11 * FIVE_MINUTES
  }

  lemma LostInDay(es: seq<Event>, s: int, d: int, hours: nat, i: nat)
    requires i < hours - 1
    ensures LostFrom(LostBuckets(es, s, d, hours), d + i * HOUR, if BucketFirst(es, s, d + i * HOUR) then 12 else 11)
  {
    hide BucketFirst;
    var h, lost := d + i * HOUR, LostBuckets(es, s, d, hours);
    forall k | 0 <= k < 12
      ensures h + k * FIVE_MINUTES in lost <==> k == 11 && !BucketFirst(es, s, h)
    {
      forall i' | 0 <= i' < hours - 1 && d + i' * HOUR + 11 * FIVE_MINUTES == h + k * FIVE_MINUTES
        ensures i' == i && k == 11
      {
      }
    }
  }

  /** What a raced schedule promises for one hour. */
  lemma RacedHour(es: seq<Event>, now: int, s: int, h: int, g: nat)
    requires Clocked(es, now) && Prompt(es, s) && FiveOnly(es, s)
    requires (s + EPOCH) % HOUR < FIVE_MINUTES && h % HOUR == 0 && h > Truncate(s, HOUR)
    requires FiveTicks(es, s, 12 * HourNumber(s, h) - 1) && HourStepAt(es, s, HourNumber(s, h), g)
    ensures if BucketFirst(es, s, h) then HourDone(es, h) else ShortHour(es, h, 11)
  {
    hide Clocked, Prompt, FiveOnly, FiveTicks, FiveTick, HourDone, ShortHour;
    var j := HourNumber(s, h);
    HourNumberIs(s, h);
    TruncateFacts(s, HOUR);
    if BucketFirst(es, s, h) {
      var i: nat :| i < |es| && HourStepAt(es, s, j, i) && FiveTick(es[..i], s, 12 * j);
      RaceWon(es, now, s, j, i);
    } else {
      RaceLost(es, now, s, j, g);
    }
  }

  lemma RacedMixed(es: seq<Event>, now: int, s: int, d: int, hours: nat, i: nat, g: nat)
    requires Clocked(es, now) && Prompt(es, s) && FiveOnly(es, s)
    requires (s + EPOCH) % HOUR < FIVE_MINUTES && d % HOUR == 0 && d > Truncate(s, HOUR) && i < hours - 1
    requires var j := HourNumber(s, d + i * HOUR); FiveTicks(es, s, 12 * j - 1) && HourStepAt(es, s, j, g)
    ensures MixedHour(es, d + i * HOUR, LostBuckets(es, s, d, hours))
  {
    hide Clocked, Prompt, FiveOnly, FiveTicks, HourStepAt, HourDone, ShortHour, BucketFirst, LostBuckets, LostFrom;
    var h := d + i * HOUR;
    HourStart(d, i);
    RacedHour(es, now, s, h, g);
    LostInDay(es, s, d, hours, i);
    var n: nat := if BucketFirst(es, s, h) then 12 else 11;
    assert LostFrom(LostBuckets(es, s, d, hours), h, n) && HeardHour(es, h, n);
  }

  ghost predicate OneHourStep(es: seq<Event>, s: int, j: int) {
    exists k: nat :: HourStepAt(es, s, j, k)
  }

  /** The schedule up to the daily step at `g`: on-time ticks, and one hourly step for each of the day's hours
      but the last. */
  ghost predicate RacedDay(es: seq<Event>, s: int, d: int, hours: nat, g: nat)
    requires g <= |es|
  {
    && FiveOnly(es[..g], s)
    && forall i | 0 <= i < hours - 1 ::
         FiveTicks(es[..g], s, 12 * HourNumber(s, d + i * HOUR) - 1)
         && OneHourStep(es[..g], s, HourNumber(s, d + i * HOUR))
  }

  /** Started one second to five minutes into an hour: the day's row is, for good, exact for the samples of all
      hours but the last, without the last buckets of those hours whose hourly step ran before the coincident
      5-minute step. */
  lemma RacedMidnight(es: seq<Event>, now: int, s: int, series: Series, d: int, hours: nat, g: nat)
    requires Clocked(es, now) && Prompt(es, s) && HourlyOnly(es, s)
    requires (s + EPOCH) % HOUR < FIVE_MINUTES
    requires 1 <= hours <= 25 && MidnightStep(es, s, d, hours, g) && d > Truncate(s, HOUR)
    requires RacedDay(es, s, d, hours, g)
    ensures Exact(Run(es).daily, Heard(Inserted(es), LostBuckets(es[..g], s, d, hours)), series, d, (hours - 1) * HOUR)
  {
    hide Clocked, Prompt, Quiet, NoHour, HourlyOnly, FiveOnly, FiveTicks, HourStepAt, MixedHour, LostBuckets,
         HourNumber;
    hide Exact, Heard, Run, Inserted, Truncate;
    LastHourMissing(es, now, s, d, hours, g);
    PrefixKeeps(es, now, s, g);
    var lost := LostBuckets(es[..g], s, d, hours);
    forall i | 0 <= i < hours - 1 ensures MixedHour(es[..g], d + i * HOUR, lost) {
      var k: nat :| HourStepAt(es[..g], s, HourNumber(s, d + i * HOUR), k);
      RacedMixed(es[..g], es[g].now, s, d, hours, i, k);
    }
    assert MixedDayAt(es, d, hours, hours - 1, lost, g);
    MixedDayExact(es, now, series, d, hours, hours - 1, lost);
  }
}
