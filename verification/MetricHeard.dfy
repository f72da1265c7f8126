/** Days whose hours were not all complete when they were aggregated: the daily row is exact for the samples
    that were not lost on the way. */
module MetricHeard {
  import opened MetricTiers
  import opened MetricExactness
  import opened MetricRuns
  import opened MetricHours
  import opened MetricDays

  /** The samples outside a set of lost buckets, each given by its start. */
  function Heard(log: seq<Sample>, lost: set<int>): seq<Sample> {
    if log == [] then []
    else
      var n := |log| - 1;
      if Truncate(log[n].at, FIVE_MINUTES) in lost then Heard(log[..n], lost) else Heard(log[..n], lost) + [log[n]]
  }

  lemma HeardStep(log: seq<Sample>, x: Sample, lost: set<int>)
    ensures Heard(log + [x], lost) ==
            if Truncate(x.at, FIVE_MINUTES) in lost then Heard(log, lost) else Heard(log, lost) + [x]
  {
    assert (log + [x])[..|log|] == log;
  }

  /** When the lost part of a window is its end from `mid` on, what is heard is what came before. */
  lemma {:induction false} HeardWindow(log: seq<Sample>, lost: set<int>, s: Series, lo: int, mid: int, hi: int)
    requires mid <= hi && forall at | lo <= at < hi :: Truncate(at, FIVE_MINUTES) !in lost <==> at < mid
    ensures Values(Heard(log, lost), s, lo, hi) == Values(log, s, lo, mid)
  {
    hide Truncate;
    if log != [] {
      var n := |log| - 1;
      HeardWindow(log[..n], lost, s, lo, mid, hi);
      if Truncate(log[n].at, FIVE_MINUTES) !in lost { ValuesStep(Heard(log[..n], lost), log[n], s, lo, hi); }
    }
  }

  /** The buckets of the hour at `h` that are lost are those from the `n`-th on. */
  ghost predicate LostFrom(lost: set<int>, h: int, n: nat) {
    n <= 12 && forall i | 0 <= i < 12 :: h + i * FIVE_MINUTES in lost <==> i >= n
  }

  lemma LostInHour(lost: set<int>, h: int, n: nat, at: int)
    requires h % HOUR == 0 && LostFrom(lost, h, n) && h <= at < h + HOUR
    ensures Truncate(at, FIVE_MINUTES) !in lost <==> at < h + n * FIVE_MINUTES
  {
    hide Truncate;
    TruncateFacts(at, FIVE_MINUTES);
    MultiplesDiffer(h, Truncate(at, FIVE_MINUTES));
    var i := (Truncate(at, FIVE_MINUTES) - h) / FIVE_MINUTES;
    assert Truncate(at, FIVE_MINUTES) == h + i * FIVE_MINUTES;
    assert 0 <= i < 12;
  }

  lemma HourHeard(t: Table, log: seq<Sample>, lost: set<int>, s: Series, h: int, n: nat)
    requires h % HOUR == 0 && LostFrom(lost, h, n) && HourSlot(t, log, s, h, n)
    ensures Exact(t, Heard(log, lost), s, h, HOUR)
  {
    hide Truncate, LostFrom, Values, Heard, Faithful, Even, Precise;
    NotPastHour(lost, h, n);
    forall at | h <= at < h + HOUR ensures Truncate(at, FIVE_MINUTES) !in lost <==> at < h + n * FIVE_MINUTES {
      LostInHour(lost, h, n, at);
    }
    HeardWindow(log, lost, s, h, h + n * FIVE_MINUTES, h + HOUR);
  }

  lemma NotPastHour(lost: set<int>, h: int, n: nat)
    requires LostFrom(lost, h, n)
    ensures h + n * FIVE_MINUTES <= h + HOUR
  {
  }

  // ---------------------------------------------------------------- days of such hours

  /** The hour at `h` was aggregated with exactly its buckets outside `lost`, or all of them are lost and it was
      not aggregated. */
  ghost predicate MixedHour(es: seq<Event>, h: int, lost: set<int>) {
    exists n: nat :: LostFrom(lost, h, n) && HeardHour(es, h, n)
  }

  ghost predicate HeardHour(es: seq<Event>, h: int, n: nat) {
    ShortHour(es, h, n) || (n == 12 && HourDone(es, h)) || (n == 0 && NoHour(es, h))
  }

  ghost predicate MixedDayAt(es: seq<Event>, d: int, hours: nat, n: nat, lost: set<int>, g: nat)
    requires g < |es|
  {
    && es[g].TickDay? && es[g].dayStart == d && es[g].dayEnd == d + hours * HOUR
    && d % HOUR == 0 && es[g].now - RETAIN_HOURLY <= d
    && n <= hours
    && (forall i | 0 <= i < n :: MixedHour(es[..g], d + i * HOUR, lost))
    && (forall i | n <= i < hours :: NoHour(es[..g], d + i * HOUR))
    && (forall j | 0 <= j < |es| && es[j].TickDay? && es[j].dayStart == d :: j == g)
    && Quiet(es, g, d, d + n * HOUR)
  }

  ghost predicate MixedDay(es: seq<Event>, d: int, hours: nat, n: nat, lost: set<int>) {
    exists g: nat :: g < |es| && MixedDayAt(es, d, hours, n, lost, g)
  }

  lemma UnheardHour(t: Table, log: seq<Sample>, s: Series, h: int)
    requires Key(s, h) !in t
    ensures HourSlot(t, log, s, h, 0)
  {
    ValuesEmpty(log, s, h);
  }

  lemma HeardHourSlot(es: seq<Event>, now: int, s: Series, h: int, n: nat)
    requires Clocked(es, now) && HeardHour(es, h, n) && now - RETAIN_HOURLY <= h && h % HOUR == 0
    ensures HourSlot(Run(es).hourly, Inserted(es), s, h, n)
  {
    hide Clocked, ShortHour, HourDone, NoHour, HourSlot, Run, Inserted;
    if ShortHour(es, h, n) {
      ShortHourExact(es, now, s, h, n);
    } else if n == 12 {
      HourExact(es, now, s, h);
    } else {
      NoHourNoRow(es, s, h);
      UnheardHour(Run(es).hourly, Inserted(es), s, h);
    }
  }

  lemma MixedHourExact(es: seq<Event>, now: int, s: Series, h: int, lost: set<int>)
    requires Clocked(es, now) && MixedHour(es, h, lost) && now - RETAIN_HOURLY <= h && h % HOUR == 0
    ensures Exact(Run(es).hourly, Heard(Inserted(es), lost), s, h, HOUR)
  {
    hide Clocked, LostFrom, HeardHour, HourSlot, Exact, Run, Inserted;
    var n: nat :| LostFrom(lost, h, n) && HeardHour(es, h, n);
    HeardHourSlot(es, now, s, h, n);
    HourHeard(Run(es).hourly, Inserted(es), lost, s, h, n);
  }

  lemma ExactSame(t: Table, u: Table, log: seq<Sample>, s: Series, at: int, width: int)
    requires Exact(t, log, s, at, width) && SameAt(t, u, Key(s, at))
    ensures Exact(u, log, s, at, width)
  {
  }

  /** The daily step over `n` exact hours and no later ones. */
  lemma FirstHours(daily: Table, hourly: Table, log: seq<Sample>, s: Series, d: int, n: nat, hours: nat)
    requires n <= hours && AlignedKeys(hourly, s, d, HOUR) && Key(s, d) !in daily
    requires forall i | 0 <= i < n :: Exact(hourly, log, s, d + i * HOUR, HOUR)
    requires forall i | n <= i < hours :: Key(s, d + i * HOUR) !in hourly
    ensures Exact(Aggregated(daily, hourly, d, d + hours * HOUR), log, s, d, n * HOUR)
  {
    hide *;
    TwelveBuckets();
    AggregateExact(daily, hourly, log, s, d, HOUR, n);
    RowsShort(hourly, s, d, HOUR, n, hours);
    SameRows(daily, hourly, s, d, d + n * HOUR, d + hours * HOUR);
    ExactSame(Aggregated(daily, hourly, d, d + n * HOUR), Aggregated(daily, hourly, d, d + hours * HOUR),
              log, s, d, n * HOUR);
  }

  lemma HourStart(d: int, i: nat)
    requires d % HOUR == 0
    ensures (d + i * HOUR) % HOUR == 0 && d <= d + i * HOUR
  {
  }

  lemma MixedTick(es: seq<Event>, e: Event, s: Series, d: int, hours: nat, n: nat, lost: set<int>)
    requires Clocked(es, e.now) && MixedDayAt(es + [e], d, hours, n, lost, |es|)
    ensures Exact(Run(es + [e]).daily, Heard(Inserted(es + [e]), lost), s, d, n * HOUR)
  {
    hide Clocked, MixedHour, NoHour, AlignedKeys, Exact, FiveFounded, HourlyFounded, Heard;
    hide Aggregated, FiveAggregated, RawKept, Kept, Run, Inserted, Truncate;
    assert (es + [e])[..|es|] == es && (es + [e])[|es|] == e;
    assert forall j | 0 <= j < |es| :: (es + [e])[j] == es[j];
    RunStep(es, e);
    TiersFounded(es, e.now);
    HoursAligned(Run(es).hourly, Inserted(es), s, d);
    NoDayNoRow(es, s, d);
    forall i | 0 <= i < n ensures Exact(Run(es).hourly, Heard(Inserted(es), lost), s, d + i * HOUR, HOUR) {
      HourStart(d, i);
      MixedHourExact(es, e.now, s, d + i * HOUR, lost);
    }
    forall i | n <= i < hours ensures Key(s, d + i * HOUR) !in Run(es).hourly {
      NoHourNoRow(es, s, d + i * HOUR);
    }
    FirstHours(Run(es).daily, Run(es).hourly, Heard(Inserted(es), lost), s, d, n, hours);
  }

  lemma MixedDayStep(es: seq<Event>, e: Event, d: int, hours: nat, n: nat, lost: set<int>)
    requires MixedDay(es + [e], d, hours, n, lost)
    ensures if e.TickDay? && e.dayStart == d then MixedDayAt(es + [e], d, hours, n, lost, |es|)
            else MixedDay(es, d, hours, n, lost) && (e.Insert? ==> !(d <= e.x.at < d + n * HOUR))
  {
    hide MixedHour, NoHour;
    var all := es + [e];
    var g: nat :| g < |all| && MixedDayAt(all, d, hours, n, lost, g);
    assert all[|es|] == e;
    if g < |es| {
      QuietPrefix(es, e, g, d, d + n * HOUR);
      assert all[..g] == es[..g] && forall j | 0 <= j < |es| :: all[j] == es[j];
      assert MixedDayAt(es, d, hours, n, lost, g);
    }
  }

  lemma HeardInsert(t: Table, log: seq<Sample>, x: Sample, lost: set<int>, s: Series, d: int, width: int)
    requires Exact(t, Heard(log, lost), s, d, width) && !(d <= x.at < d + width)
    ensures Exact(t, Heard(log + [x], lost), s, d, width)
  {
    hide Values, Heard, Faithful;
    HeardStep(log, x, lost);
    ValuesStep(Heard(log, lost), x, s, d, d + width);
  }

  lemma OtherKeepsMixed(t: Tiers, e: Event, log: seq<Sample>, lost: set<int>, s: Series, d: int, width: int)
    requires Exact(t.daily, Heard(log, lost), s, d, width)
    requires e.Insert? ==> !(d <= e.x.at < d + width)
    requires e.TickDay? ==> e.dayStart != d
    ensures Exact(Step(t, e).daily, Heard(if e.Insert? then log + [e.x] else log, lost), s, d, width)
  {
    hide Exact, Heard, FiveAggregated, Aggregated, RawKept, Kept, Truncate;
    match e {
      case Insert(x, _) => HeardInsert(t.daily, log, x, lost, s, d, width);
      case TickDay(dayStart, dayEnd, _) =>
        AggregatedKeys(t.daily, t.hourly, dayStart, dayEnd, s, d);
        ExactSame(t.daily, Step(t, e).daily, Heard(log, lost), s, d, width);
      case _ =>
    }
  }

  /** A day's row is, for ever after, exact for the samples of its aggregated hours that were not in a bucket
      lost to one of them. */
  lemma {:induction false} MixedDayExact(es: seq<Event>, now: int, s: Series, d: int, hours: nat, n: nat,
                                         lost: set<int>)
    requires Clocked(es, now) && MixedDay(es, d, hours, n, lost)
    ensures Exact(Run(es).daily, Heard(Inserted(es), lost), s, d, n * HOUR)
  {
    hide Step, Clocked, Exact, MixedDay, MixedDayAt, Run, Inserted, Heard;
    MixedNotBlank(es, d, hours, n, lost);
    var m := |es| - 1;
    var es', e := es[..m], es[m];
    assert es == es' + [e];
    ClockedPrefix(es', e, now);
    MixedDayStep(es', e, d, hours, n, lost);
    if e.TickDay? && e.dayStart == d {
      MixedTick(es', e, s, d, hours, n, lost);
    } else {
      RunStep(es', e);
      MixedDayExact(es', e.now, s, d, hours, n, lost);
      OtherKeepsMixed(Run(es'), e, Inserted(es'), lost, s, d, n * HOUR);
    }
  }

  lemma MixedNotBlank(es: seq<Event>, d: int, hours: nat, n: nat, lost: set<int>)
    requires MixedDay(es, d, hours, n, lost)
    ensures es != []
  {
  }
}
