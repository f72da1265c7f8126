/** Hours that are aggregated before all their buckets are: what their rows hold instead. */
module MetricHours {
  import opened MetricTiers
  import opened MetricExactness
  import opened MetricRuns

  /** No hourly step has aggregated the hour at `h`. */
  ghost predicate NoHour(es: seq<Event>, h: int) {
    forall j | 0 <= j < |es| && es[j].TickHour? :: Truncate(es[j].now, HOUR) != h + HOUR
  }

  /** No 5-minute step has aggregated the bucket at `w`. */
  ghost predicate NoFive(es: seq<Event>, w: int) {
    forall j | 0 <= j < |es| && es[j].Tick5? :: Truncate(es[j].now, FIVE_MINUTES) != w + FIVE_MINUTES
  }

  /** The hour at `h` was aggregated once, at `g`, when exactly its first `n` buckets had been. */
  ghost predicate ShortHourAt(es: seq<Event>, h: int, n: nat, g: nat)
    requires g < |es|
  {
    && es[g].TickHour? && Truncate(es[g].now, HOUR) == h + HOUR && n <= 12
    && (forall i | 0 <= i < n :: FiveDone(es[..g], h + i * FIVE_MINUTES))
    && (forall i | n <= i < 12 :: NoFive(es[..g], h + i * FIVE_MINUTES))
    && (forall j | 0 <= j < |es| && es[j].TickHour? && Truncate(es[j].now, HOUR) == h + HOUR :: j == g)
    && Quiet(es, g, h, h + n * FIVE_MINUTES)
  }

  ghost predicate ShortHour(es: seq<Event>, h: int, n: nat) {
    exists g: nat :: g < |es| && ShortHourAt(es, h, n, g)
  }

  // ---------------------------------------------------------------- rows that are not there

  lemma {:induction false} NoHourNoRow(es: seq<Event>, s: Series, h: int)
    requires NoHour(es, h)
    ensures Key(s, h) !in Run(es).hourly
  {
    hide FiveAggregated, Aggregated, RawKept, Truncate;
    if es != [] {
      var n := |es| - 1;
      NoHourNoRow(es[..n], s, h);
      if es[n].TickHour? {
        var t, end := Run(es[..n]), Truncate(es[n].now, HOUR);
        AggregatedKeys(t.hourly, t.five, end - HOUR, end, s, h);
      }
    }
  }

  lemma {:induction false} NoFiveNoRow(es: seq<Event>, now: int, s: Series, w: int)
    requires Clocked(es, now) && NoFive(es, w)
    ensures Key(s, w) !in Run(es).five
  {
    hide FiveAggregated, Aggregated, RawKept, Truncate, Clocked;
    if es != [] {
      var n := |es| - 1;
      assert es == es[..n] + [es[n]];
      ClockedPrefix(es[..n], es[n], now);
      NoFiveNoRow(es[..n], es[n].now, s, w);
      if es[n].Tick5? {
        TruncateFacts(es[n].now, FIVE_MINUTES);
        FiveAt(Run(es[..n]).five, Run(es[..n]).raw, Truncate(es[n].now, FIVE_MINUTES) - FIVE_MINUTES, s, w);
      }
    }
  }

  // ---------------------------------------------------------------- the hourly step

  /** Aggregating `n` buckets gives the exact row of those buckets. */
  lemma FirstBuckets(hourly: Table, five: Table, log: seq<Sample>, s: Series, h: int, n: nat)
    requires AlignedKeys(five, s, h, FIVE_MINUTES) && Key(s, h) !in hourly
    requires forall i | 0 <= i < n :: Precise(five, log, s, h + i * FIVE_MINUTES, FIVE_MINUTES)
    ensures HourSlot(Aggregated(hourly, five, h, h + n * FIVE_MINUTES), log, s, h, n)
  {
    hide Exact, Precise, Even, Aggregated, AlignedKeys, Values;
    forall i | 0 <= i < n ensures Exact(five, log, s, h + i * FIVE_MINUTES, FIVE_MINUTES) {
      PreciseIsExact(five, log, s, h + i * FIVE_MINUTES, FIVE_MINUTES);
    }
    AggregateExact(hourly, five, log, s, h, FIVE_MINUTES, n);
    if Even(log, s, h, FIVE_MINUTES, n) { AggregatePrecise(hourly, five, log, s, h, FIVE_MINUTES, n); }
  }

  /** Missing buckets at the end of the hour leave the row of the buckets before them. */
  lemma MissingBuckets(hourly: Table, five: Table, log: seq<Sample>, s: Series, h: int, n: nat)
    requires n <= 12 && AlignedKeys(five, s, h, FIVE_MINUTES) && Key(s, h) !in hourly
    requires forall i | 0 <= i < n :: Precise(five, log, s, h + i * FIVE_MINUTES, FIVE_MINUTES)
    requires forall i | n <= i < 12 :: Key(s, h + i * FIVE_MINUTES) !in five
    ensures HourSlot(Aggregated(hourly, five, h, h + HOUR), log, s, h, n)
  {
    hide *;
    TwelveBuckets();
    FirstBuckets(hourly, five, log, s, h, n);
    RowsShort(five, s, h, FIVE_MINUTES, n, 12);
    SameRows(hourly, five, s, h, h + n * FIVE_MINUTES, h + HOUR);
    HourSlotSame(Aggregated(hourly, five, h, h + n * FIVE_MINUTES), Aggregated(hourly, five, h, h + HOUR),
                 log, s, h, n);
  }

  lemma TwelveBuckets()
    ensures 12 * FIVE_MINUTES == HOUR && FIVE_MINUTES > 0 && HOUR > 0
  {
  }

  lemma ShortTickMakesSlot(es: seq<Event>, e: Event, s: Series, h: int, n: nat)
    requires Clocked(es, e.now) && e.now - RETAIN_HOURLY <= h && ShortHourAt(es + [e], h, n, |es|)
    ensures HourSlot(Run(es + [e]).hourly, Inserted(es + [e]), s, h, n)
  {
    hide Clocked, HourSlot, FiveDone, NoFive, AlignedKeys, Precise, FiveFounded, HourlyFounded;
    hide Aggregated, FiveAggregated, RawKept, Kept, Run, Inserted, Truncate;
    assert (es + [e])[..|es|] == es && (es + [e])[|es|] == e;
    assert forall j | 0 <= j < |es| :: (es + [e])[j] == es[j];
    RunStep(es, e);
    TruncateFacts(e.now, HOUR);
    TiersFounded(es, e.now);
    FiveAligned(Run(es).five, Inserted(es), s, h);
    NoHourNoRow(es, s, h);
    forall i | 0 <= i < n ensures Precise(Run(es).five, Inserted(es), s, h + i * FIVE_MINUTES, FIVE_MINUTES) {
      FivePrecise(es, e.now, s, h + i * FIVE_MINUTES);
    }
    forall i | n <= i < 12 ensures Key(s, h + i * FIVE_MINUTES) !in Run(es).five {
      NoFiveNoRow(es, e.now, s, h + i * FIVE_MINUTES);
    }
    MissingBuckets(Run(es).hourly, Run(es).five, Inserted(es), s, h, n);
  }

  lemma ShortHourStep(es: seq<Event>, e: Event, h: int, n: nat)
    requires ShortHour(es + [e], h, n)
    ensures if e.TickHour? && Truncate(e.now, HOUR) == h + HOUR then ShortHourAt(es + [e], h, n, |es|)
            else ShortHour(es, h, n) && (e.Insert? ==> !(h <= e.x.at < h + n * FIVE_MINUTES))
  {
    hide FiveDone, NoFive, Truncate;
    var all := es + [e];
    var g: nat :| g < |all| && ShortHourAt(all, h, n, g);
    assert all[|es|] == e;
    if g < |es| {
      QuietPrefix(es, e, g, h, h + n * FIVE_MINUTES);
      assert all[..g] == es[..g] && forall j | 0 <= j < |es| :: all[j] == es[j];
      assert ShortHourAt(es, h, n, g);
    }
  }

  /** An hour's row covers, for ninety days, exactly the buckets that had been aggregated when the hourly step
      ran: all twelve, or all but the last ones. */
  lemma {:induction false} ShortHourExact(es: seq<Event>, now: int, s: Series, h: int, n: nat)
    requires Clocked(es, now) && ShortHour(es, h, n) && now - RETAIN_HOURLY <= h
    ensures HourSlot(Run(es).hourly, Inserted(es), s, h, n)
  {
    hide Step, Clocked, HourSlot, ShortHour, ShortHourAt, Truncate, Run, Inserted;
    ShortNotBlank(es, h, n);
    var m := |es| - 1;
    var es', e := es[..m], es[m];
    assert es == es' + [e];
    ClockedPrefix(es', e, now);
    ShortHourStep(es', e, h, n);
    if e.TickHour? && Truncate(e.now, HOUR) == h + HOUR {
      ShortTickMakesSlot(es', e, s, h, n);
    } else {
      RunStep(es', e);
      ShortHourExact(es', e.now, s, h, n);
      OtherKeepsHour(Run(es'), e, Inserted(es'), s, h, n);
    }
  }

  lemma ShortNotBlank(es: seq<Event>, h: int, n: nat)
    requires ShortHour(es, h, n)
    ensures es != []
  {
  }
}
