/** The daily tier: what a day's row holds, including when the day's last hour is aggregated too late. */
module MetricDays {
  import opened MetricTiers
  import opened MetricExactness
  import opened MetricRuns
  import opened MetricHours

  /** A day's row has the extremes of the first `n` hours and an average between them; with equally
      filled buckets and hours the average is the raw mean. */
  ghost predicate DaySlot(t: Table, log: seq<Sample>, s: Series, d: int, n: nat) {
    && Exact(t, log, s, d, n * HOUR)
    && (EvenDay(log, s, d, n) ==> Precise(t, log, s, d, n * HOUR))
  }

  ghost predicate EvenDay(log: seq<Sample>, s: Series, d: int, n: nat) {
    && Even(log, s, d, HOUR, n)
    && forall i | 0 <= i < n :: Even(log, s, d + i * HOUR, FIVE_MINUTES, 12)
  }

  /** The day at `d`, `hours` long, was aggregated once, when exactly its first `n` hours had been. */
  ghost predicate DayDoneAt(es: seq<Event>, d: int, hours: nat, n: nat, g: nat)
    requires g < |es|
  {
    && es[g].TickDay? && es[g].dayStart == d && es[g].dayEnd == d + hours * HOUR
    && d % HOUR == 0 && es[g].now - RETAIN_HOURLY <= d
    && n <= hours
    && (forall i | 0 <= i < n :: HourDone(es[..g], d + i * HOUR))
    && (forall i | n <= i < hours :: NoHour(es[..g], d + i * HOUR))
    && (forall j | 0 <= j < |es| && es[j].TickDay? && es[j].dayStart == d :: j == g)
    && Quiet(es, g, d, d + n * HOUR)
  }

  ghost predicate DayDone(es: seq<Event>, d: int, hours: nat, n: nat) {
    exists g: nat :: g < |es| && DayDoneAt(es, d, hours, n, g)
  }

  // ---------------------------------------------------------------- rows that are not there

  lemma {:induction false} NoDayNoRow(es: seq<Event>, s: Series, d: int)
    requires forall j | 0 <= j < |es| && es[j].TickDay? :: es[j].dayStart != d
    ensures Key(s, d) !in Run(es).daily
  {
    hide FiveAggregated, Aggregated, RawKept, Kept, Truncate;
    if es != [] {
      var n := |es| - 1;
      NoDayNoRow(es[..n], s, d);
      if es[n].TickDay? {
        var t := Run(es[..n]);
        AggregatedKeys(t.daily, t.hourly, es[n].dayStart, es[n].dayEnd, s, d);
      }
    }
  }

  lemma HoursAligned(hourly: Table, log: seq<Sample>, s: Series, d: int)
    requires HourlyFounded(hourly, log) && d % HOUR == 0
    ensures AlignedKeys(hourly, s, d, HOUR)
  {
    forall at | Key(s, at) in hourly ensures (at - d) % HOUR == 0 {
      assert Key(s, at).at % HOUR == 0;
      HoursDiffer(d, at);
    }
  }

  lemma HoursDiffer(d: int, at: int)
    requires d % HOUR == 0 && at % HOUR == 0
    ensures (at - d) % HOUR == 0
  {
    assert at - d == 3600 * (at / 3600 - d / 3600);
  }

  // ---------------------------------------------------------------- the daily step

  lemma DaySlotSame(t: Table, u: Table, log: seq<Sample>, s: Series, d: int, n: nat)
    requires DaySlot(t, log, s, d, n) && SameAt(t, u, Key(s, d))
    ensures DaySlot(u, log, s, d, n)
  {
    hide Even;
  }

  /** Aggregating `n` exact hours gives an exact row. */
  lemma FullDay(daily: Table, hourly: Table, log: seq<Sample>, s: Series, d: int, n: nat)
    requires AlignedKeys(hourly, s, d, HOUR) && Key(s, d) !in daily
    requires forall i | 0 <= i < n :: HourSlot(hourly, log, s, d + i * HOUR, 12)
    ensures DaySlot(Aggregated(daily, hourly, d, d + n * HOUR), log, s, d, n)
  {
    hide Exact, Precise, Even, Aggregated, AlignedKeys, Values;
    forall i | 0 <= i < n ensures Exact(hourly, log, s, d + i * HOUR, HOUR) {
      assert HourSlot(hourly, log, s, d + i * HOUR, 12);
    }
    AggregateExact(daily, hourly, log, s, d, HOUR, n);
    if EvenDay(log, s, d, n) {
      forall i | 0 <= i < n ensures Precise(hourly, log, s, d + i * HOUR, HOUR) {
        assert HourSlot(hourly, log, s, d + i * HOUR, 12);
      }
      AggregatePrecise(daily, hourly, log, s, d, HOUR, n);
    }
  }

  /** Missing hours at the end of the day leave the row of the hours before them. */
  lemma ShortDay(daily: Table, hourly: Table, log: seq<Sample>, s: Series, d: int, n: nat, hours: nat)
    requires n <= hours && AlignedKeys(hourly, s, d, HOUR) && Key(s, d) !in daily
    requires forall i | 0 <= i < n :: HourSlot(hourly, log, s, d + i * HOUR, 12)
    requires forall i | n <= i < hours :: Key(s, d + i * HOUR) !in hourly
    ensures DaySlot(Aggregated(daily, hourly, d, d + hours * HOUR), log, s, d, n)
  {
    hide *;
    FullDay(daily, hourly, log, s, d, n);
    TwelveBuckets();
    RowsShort(hourly, s, d, HOUR, n, hours);
    SameRows(daily, hourly, s, d, d + n * HOUR, d + hours * HOUR);
    DaySlotSame(Aggregated(daily, hourly, d, d + n * HOUR), Aggregated(daily, hourly, d, d + hours * HOUR),
                log, s, d, n);
  }

  lemma DaySlotInsert(t: Table, log: seq<Sample>, x: Sample, s: Series, d: int, n: nat)
    requires DaySlot(t, log, s, d, n) && !(d <= x.at < d + n * HOUR)
    ensures DaySlot(t, log + [x], s, d, n)
  {
    hide Values, EvenDay;
    ValuesStep(log, x, s, d, d + n * HOUR);
    if EvenDay(log + [x], s, d, n) { EvenWithout(log, x, s, d, n); }
  }

  lemma EvenWithout(log: seq<Sample>, x: Sample, s: Series, d: int, n: nat)
    requires EvenDay(log + [x], s, d, n) && !(d <= x.at < d + n * HOUR)
    ensures EvenDay(log, s, d, n)
  {
    hide Values, Even;
    forall i | 0 <= i < n
      ensures Values(log + [x], s, d + i * HOUR, d + i * HOUR + HOUR) ==
              Values(log, s, d + i * HOUR, d + i * HOUR + HOUR)
      ensures Even(log, s, d + i * HOUR, FIVE_MINUTES, 12)
    {
      HourInDay(d, i, n);
      ValuesStep(log, x, s, d + i * HOUR, d + i * HOUR + HOUR);
      EvenHourWithout(log, x, s, d + i * HOUR);
    }
    EvenSame(log, log + [x], s, d, HOUR, n);
  }

  lemma HourInDay(d: int, i: nat, n: nat)
    requires i < n
    ensures d <= d + i * HOUR && d + i * HOUR + HOUR <= d + n * HOUR
  {
  }

  lemma EvenSame(log: seq<Sample>, log': seq<Sample>, s: Series, lo: int, width: int, k: nat)
    requires Even(log', s, lo, width, k)
    requires forall i | 0 <= i < k ::
               Values(log', s, lo + i * width, lo + i * width + width) ==
               Values(log, s, lo + i * width, lo + i * width + width)
    ensures Even(log, s, lo, width, k)
  {
    hide Values;
  }

  lemma EvenHourWithout(log: seq<Sample>, x: Sample, s: Series, h: int)
    requires Even(log + [x], s, h, FIVE_MINUTES, 12) && !(h <= x.at < h + HOUR)
    ensures Even(log, s, h, FIVE_MINUTES, 12)
  {
    hide Values;
    forall i | 0 <= i < 12
      ensures var w := h + i * FIVE_MINUTES;
              Values(log + [x], s, w, w + FIVE_MINUTES) == Values(log, s, w, w + FIVE_MINUTES)
    {
      ValuesStep(log, x, s, h + i * FIVE_MINUTES, h + i * FIVE_MINUTES + FIVE_MINUTES);
    }
  }

  /** Nothing else ever writes or deletes a day's row. */
  lemma OtherKeepsDay(t: Tiers, e: Event, log: seq<Sample>, s: Series, d: int, n: nat)
    requires DaySlot(t.daily, log, s, d, n)
    requires e.Insert? ==> !(d <= e.x.at < d + n * HOUR)
    requires e.TickDay? ==> e.dayStart != d
    ensures DaySlot(Step(t, e).daily, if e.Insert? then log + [e.x] else log, s, d, n)
  {
    hide DaySlot, FiveAggregated, Aggregated, RawKept, Kept, Truncate;
    match e {
      case Insert(x, _) => DaySlotInsert(t.daily, log, x, s, d, n);
      case TickDay(dayStart, dayEnd, _) =>
        AggregatedKeys(t.daily, t.hourly, dayStart, dayEnd, s, d);
        DaySlotSame(t.daily, Step(t, e).daily, log, s, d, n);
      case _ =>
    }
  }

  lemma DayTickMakesSlot(es: seq<Event>, e: Event, s: Series, d: int, hours: nat, n: nat)
    requires Clocked(es, e.now) && e.now >= FIVE_MINUTES && DayDoneAt(es + [e], d, hours, n, |es|)
    ensures DaySlot(Run(es + [e]).daily, Inserted(es + [e]), s, d, n)
  {
    hide Clocked, HourSlot, HourDone, DaySlot, NoHour, AlignedKeys, FiveFounded, HourlyFounded, Aggregated,
         FiveAggregated, RawKept, Kept, Run, Inserted, Truncate;
    assert (es + [e])[..|es|] == es && (es + [e])[|es|] == e;
    assert forall j | 0 <= j < |es| :: (es + [e])[j] == es[j];
    RunStep(es, e);
    TiersFounded(es, e.now);
    HoursAligned(Run(es).hourly, Inserted(es), s, d);
    NoDayNoRow(es, s, d);
    forall i | 0 <= i < n ensures HourSlot(Run(es).hourly, Inserted(es), s, d + i * HOUR, 12) {
      HourExact(es, e.now, s, d + i * HOUR);
    }
    forall i | n <= i < hours ensures Key(s, d + i * HOUR) !in Run(es).hourly {
      NoHourNoRow(es, s, d + i * HOUR);
    }
    ShortDay(Run(es).daily, Run(es).hourly, Inserted(es), s, d, n, hours);
  }

  lemma DayDoneStep(es: seq<Event>, e: Event, d: int, hours: nat, n: nat)
    requires DayDone(es + [e], d, hours, n)
    ensures if e.TickDay? && e.dayStart == d then DayDoneAt(es + [e], d, hours, n, |es|)
            else DayDone(es, d, hours, n) && (e.Insert? ==> !(d <= e.x.at < d + n * HOUR))
  {
    hide HourDone, NoHour;
    var all := es + [e];
    var g: nat :| g < |all| && DayDoneAt(all, d, hours, n, g);
    assert all[|es|] == e;
    if g < |es| {
      QuietPrefix(es, e, g, d, d + n * HOUR);
      assert all[..g] == es[..g] && forall j | 0 <= j < |es| :: all[j] == es[j];
      assert DayDoneAt(es, d, hours, n, g);
    }
  }

  /** A day's row covers, for ever after, exactly the hours that had been aggregated when the daily step
      ran: all of them, or all but the last ones. */
  lemma {:induction false} DayExact(es: seq<Event>, now: int, s: Series, d: int, hours: nat, n: nat)
    requires Clocked(es, now) && DayDone(es, d, hours, n)
    ensures DaySlot(Run(es).daily, Inserted(es), s, d, n)
  {
    hide Step, Clocked, DaySlot, DayDone, DayDoneAt, Run, Inserted;
    DayNotBlank(es, d, hours, n);
    var m := |es| - 1;
    var es', e := es[..m], es[m];
    assert es == es' + [e];
    ClockedPrefix(es', e, now);
    DayDoneStep(es', e, d, hours, n);
    if e.TickDay? && e.dayStart == d {
      DayTickMakesSlot(es', e, s, d, hours, n);
    } else {
      RunStep(es', e);
      DayExact(es', e.now, s, d, hours, n);
      OtherKeepsDay(Run(es'), e, Inserted(es'), s, d, n);
    }
  }

  lemma DayNotBlank(es: seq<Event>, d: int, hours: nat, n: nat)
    requires DayDone(es, d, hours, n)
    ensures es != []
  {
  }
}
