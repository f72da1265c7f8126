/** Runs of the downsampler: inserts and the tickers' steps in any order on a clock that does not go
    back. What each tier ends up holding, whatever the retention deletes in between. */
module MetricRuns {
  import opened Arithmetic
  import opened Sequences
  import opened MetricTiers
  import opened MetricExactness

  /** Every sample ever inserted. */
  function Inserted(es: seq<Event>): seq<Sample> {
    if es == [] then []
    else
      var n := |es| - 1;
      if es[n].Insert? then Inserted(es[..n]) + [es[n].x] else Inserted(es[..n])
  }

  /** Readings of a clock that does not go back and has passed the first five minutes of 1970. */
  ghost predicate Clocked(es: seq<Event>, now: int) {
    && (forall i, j | 0 <= i < j < |es| :: es[i].now <= es[j].now)
    && (forall i | 0 <= i < |es| :: FIVE_MINUTES <= es[i].now <= now)
  }

  lemma ClockedPrefix(es: seq<Event>, e: Event, now: int)
    requires Clocked(es + [e], now)
    ensures Clocked(es, e.now) && FIVE_MINUTES <= e.now <= now
  {
    assert (es + [e])[|es|] == e;
    assert forall i | 0 <= i < |es| :: (es + [e])[i] == es[i];
  }

  lemma RunStep(es: seq<Event>, e: Event)
    ensures Run(es + [e]) == Step(Run(es), e)
    ensures Inserted(es + [e]) == if e.Insert? then Inserted(es) + [e.x] else Inserted(es)
  {
    assert (es + [e])[..|es|] == es;
  }

  // ---------------------------------------------------------------- raw samples are kept long enough

  lemma {:induction false} RawKeptValues(raw: seq<Sample>, cutoff: int, s: Series, lo: int, hi: int)
    requires cutoff <= lo
    ensures Values(RawKept(raw, cutoff), s, lo, hi) == Values(raw, s, lo, hi)
  {
    if raw != [] {
      var n := |raw| - 1;
      RawKeptValues(raw[..n], cutoff, s, lo, hi);
      if raw[n].at >= cutoff { ValuesStep(RawKept(raw[..n], cutoff), raw[n], s, lo, hi); }
    }
  }

  lemma RawStep(t: Tiers, e: Event, log: seq<Sample>, s: Series, lo: int, hi: int)
    requires Values(t.raw, s, lo, hi) == Values(log, s, lo, hi) && e.now - RETAIN_RAW <= lo
    ensures Values(Step(t, e).raw, s, lo, hi) == Values(if e.Insert? then log + [e.x] else log, s, lo, hi)
  {
    hide Values, RawKept, FiveAggregated, Aggregated, Kept;
    match e {
      case Insert(x, _) => ValuesStep(t.raw, x, s, lo, hi); ValuesStep(log, x, s, lo, hi);
      case Tick5(now) => RawKeptValues(t.raw, now - RETAIN_RAW, s, lo, hi);
      case _ =>
    }
  }

  /** Samples of the last six hours are all still in the raw table. */
  lemma {:induction false} RawRetained(es: seq<Event>, now: int, s: Series, lo: int, hi: int)
    requires Clocked(es, now) && now - RETAIN_RAW <= lo
    ensures Values(Run(es).raw, s, lo, hi) == Values(Inserted(es), s, lo, hi)
  {
    hide Step, Values, Clocked;
    if es != [] {
      var n := |es| - 1;
      assert es == es[..n] + [es[n]];
      ClockedPrefix(es[..n], es[n], now);
      RawRetained(es[..n], es[n].now, s, lo, hi);
      RunStep(es[..n], es[n]);
      RawStep(Run(es[..n]), es[n], Inserted(es[..n]), s, lo, hi);
    }
  }

  lemma {:induction false} NoneBefore(raw: seq<Sample>, cutoff: int, s: Series, lo: int, hi: int)
    requires forall x | x in raw :: x.at >= cutoff
    ensures Values(raw, s, lo, hi) == Values(raw, s, if lo < cutoff then cutoff else lo, hi)
  {
    if raw != [] {
      var n := |raw| - 1;
      assert raw[n] in raw;
      NoneBefore(raw[..n], cutoff, s, lo, hi);
    }
  }

  /** Right after a 5-minute tick the raw table holds exactly the samples of the last six hours. */
  lemma RawIsSixHours(es: seq<Event>, now: int, s: Series, lo: int, hi: int)
    requires Clocked(es + [Tick5(now)], now)
    ensures var cutoff, raw := now - 6 * HOUR, Run(es + [Tick5(now)]).raw;
            && (forall x | x in raw :: x.at >= cutoff)
            && Values(raw, s, lo, hi) == Values(Inserted(es), s, if lo < cutoff then cutoff else lo, hi)
  {
    hide Step, Values, Clocked, RawKept, Inserted;
    var e, cutoff := Tick5(now), now - 6 * HOUR;
    RunStep(es, e);
    RawRetained(es + [e], now, s, if lo < cutoff then cutoff else lo, hi);
    TickPrunes(Run(es), now);
    NoneBefore(Run(es + [e]).raw, cutoff, s, lo, hi);
  }

  lemma TickPrunes(t: Tiers, now: int)
    ensures forall x | x in Step(t, Tick5(now)).raw :: x.at >= now - 6 * HOUR
  {
    hide RawKept, FiveAggregated;
    RawKeptFilters(t.raw, now - RETAIN_RAW);
  }

  lemma {:induction false} RawKeptSubset(raw: seq<Sample>, cutoff: int)
    ensures forall x | x in RawKept(raw, cutoff) :: x in raw
  {
    if raw != [] { RawKeptSubset(raw[..|raw| - 1], cutoff); }
  }

  lemma {:induction false} RawFromLog(es: seq<Event>)
    ensures forall x | x in Run(es).raw :: x in Inserted(es)
  {
    hide FiveAggregated, Aggregated, Kept, RawKept;
    if es != [] {
      var n := |es| - 1;
      RawFromLog(es[..n]);
      if es[n].Tick5? { RawKeptSubset(Run(es[..n]).raw, es[n].now - RETAIN_RAW); }
    }
  }

  lemma SubsetValues(rows: seq<Sample>, log: seq<Sample>, s: Series, lo: int, hi: int)
    requires forall x | x in rows :: x in log
    requires Values(rows, s, lo, hi) != []
    ensures Values(log, s, lo, hi) != []
  {
    var v := Values(rows, s, lo, hi)[0];
    ValuesIn(rows, s, lo, hi, v);
    var i :| 0 <= i < |rows| && rows[i].series == s && lo <= rows[i].at < hi && rows[i].value == v;
    assert rows[i] in log;
    ValuesIn(log, s, lo, hi, v);
  }

  lemma WiderValues(log: seq<Sample>, s: Series, lo: int, hi: int, lo': int, hi': int)
    requires lo' <= lo && hi <= hi' && lo <= hi
    requires Values(log, s, lo, hi) != []
    ensures Values(log, s, lo', hi') != []
  {
    ValuesSplit(log, s, lo', lo, hi');
    ValuesSplit(log, s, lo, hi, hi');
  }

  // ---------------------------------------------------------------- one 5-minute aggregation

  lemma TruncateFacts(t: int, d: int)
    requires d == FIVE_MINUTES || d == HOUR
    ensures Truncate(t, d) % d == 0
    ensures t - d < Truncate(t, d) <= t
  {
    if d == FIVE_MINUTES {
      TruncateAligned(t, FIVE_MINUTES, EPOCH / FIVE_MINUTES);
    } else {
      TruncateAligned(t, HOUR, EPOCH / HOUR);
    }
  }

  lemma TruncateAligned(t: int, d: int, e: int)
    requires d > 0 && EPOCH == d * e
    ensures Truncate(t, d) % d == 0
    ensures t - d < Truncate(t, d) <= t
  {
    var q := (t + EPOCH) / d;
    assert (q - e) * d == q * d - EPOCH;
    MultipleMod(q - e, d);
  }

  lemma BucketIs(at: int, w: int)
    requires 0 <= w && w % FIVE_MINUTES == 0 && w <= at < w + FIVE_MINUTES
    ensures Bucket(at) == w
  {
  }

  lemma {:induction false} GroupIsWindow(raw: seq<Sample>, w: int, s: Series)
    requires 0 <= w && w % FIVE_MINUTES == 0
    ensures Group(raw, w, w + FIVE_MINUTES, Key(s, w)) == Values(raw, s, w, w + FIVE_MINUTES)
  {
    hide Bucket;
    if raw != [] {
      var n := |raw| - 1;
      GroupIsWindow(raw[..n], w, s);
      if w <= raw[n].at < w + FIVE_MINUTES { BucketIs(raw[n].at, w); }
    }
  }

  /** The statement over an aligned window writes exactly that window's bucket. */
  lemma FiveAt(five: Table, raw: seq<Sample>, w: int, s: Series, b: int)
    requires 0 <= w && w % FIVE_MINUTES == 0
    ensures var t := FiveAggregated(five, raw, w, w + FIVE_MINUTES); var vs := Values(raw, s, w, w + FIVE_MINUTES);
            && (b == w && vs != [] ==> Key(s, b) in t && t[Key(s, b)] == Summarise(vs))
            && (b != w || vs == [] ==> (Key(s, b) in t <==> Key(s, b) in five)
                                       && (Key(s, b) in five ==> t[Key(s, b)] == five[Key(s, b)]))
  {
    hide Bucket, Summarise, Values, Group;
    GroupIsWindow(raw, w, s);
    GroupNonEmpty(raw, w, w + FIVE_MINUTES, Key(s, b));
    forall i | 0 <= i < |raw| && w <= raw[i].at < w + FIVE_MINUTES ensures Bucket(raw[i].at) == w {
      BucketIs(raw[i].at, w);
    }
  }

  lemma AggregatedKeys(into: Table, source: Table, lo: int, hi: int, s: Series, b: int)
    ensures Key(s, b) in Aggregated(into, source, lo, hi) <==>
            Key(s, b) in into || (b == lo && s in SeriesIn(source, lo, hi))
    ensures b != lo && Key(s, b) in into ==> Aggregated(into, source, lo, hi)[Key(s, b)] == into[Key(s, b)]
  {
    hide Rows, Combine;
  }

  // ---------------------------------------------------------------- nothing in a tier without samples

  ghost predicate FiveFounded(five: Table, log: seq<Sample>) {
    forall k | k in five :: k.at % FIVE_MINUTES == 0 && Values(log, k.series, k.at, k.at + FIVE_MINUTES) != []
  }

  ghost predicate HourlyFounded(hourly: Table, log: seq<Sample>) {
    forall k | k in hourly :: k.at % HOUR == 0 && Values(log, k.series, k.at, k.at + HOUR) != []
  }

  lemma FoundedGrows(five: Table, hourly: Table, log: seq<Sample>, x: Sample)
    requires FiveFounded(five, log) && HourlyFounded(hourly, log)
    ensures FiveFounded(five, log + [x]) && HourlyFounded(hourly, log + [x])
  {
    forall s, lo, hi { ValuesStep(log, x, s, lo, hi); }
  }

  lemma Tick5Founded(five: Table, raw: seq<Sample>, log: seq<Sample>, w: int)
    requires 0 <= w && w % FIVE_MINUTES == 0
    requires FiveFounded(five, log) && forall x | x in raw :: x in log
    ensures FiveFounded(FiveAggregated(five, raw, w, w + FIVE_MINUTES), log)
  {
    hide Values, FiveAggregated;
    var t := FiveAggregated(five, raw, w, w + FIVE_MINUTES);
    forall k | k in t ensures k.at % FIVE_MINUTES == 0 && Values(log, k.series, k.at, k.at + FIVE_MINUTES) != [] {
      FiveAt(five, raw, w, k.series, k.at);
      assert k == Key(k.series, k.at);
      if k.at == w && Values(raw, k.series, w, w + FIVE_MINUTES) != [] {
        SubsetValues(raw, log, k.series, w, w + FIVE_MINUTES);
      }
    }
  }

  lemma TickHourFounded(hourly: Table, five: Table, log: seq<Sample>, h: int)
    requires h % HOUR == 0
    requires FiveFounded(five, log) && HourlyFounded(hourly, log)
    ensures HourlyFounded(Aggregated(hourly, five, h, h + HOUR), log)
  {
    hide Values, Aggregated;
    var t := Aggregated(hourly, five, h, h + HOUR);
    forall k | k in t ensures k.at % HOUR == 0 && Values(log, k.series, k.at, k.at + HOUR) != [] {
      AggregatedKeys(hourly, five, h, h + HOUR, k.series, k.at);
      assert k == Key(k.series, k.at);
      if k !in hourly {
        var f :| f in five && h <= f.at < h + HOUR && f.series == k.series;
        Within(h, f.at);
        WiderValues(log, k.series, f.at, f.at + FIVE_MINUTES, h, h + HOUR);
      }
    }
  }

  lemma Within(h: int, b: int)
    requires h % HOUR == 0 && b % FIVE_MINUTES == 0 && h <= b < h + HOUR
    ensures b + FIVE_MINUTES <= h + HOUR
  {
    var q, r := h / HOUR, b / FIVE_MINUTES;
    assert h == 3600 * q && b == 300 * r;
    assert r < 12 * q + 12;
  }

  lemma StepFounded(t: Tiers, e: Event, log: seq<Sample>)
    requires FiveFounded(t.five, log) && HourlyFounded(t.hourly, log)
    requires (forall x | x in t.raw :: x in log) && e.now >= FIVE_MINUTES
    ensures var log' := if e.Insert? then log + [e.x] else log;
            FiveFounded(Step(t, e).five, log') && HourlyFounded(Step(t, e).hourly, log')
  {
    hide Values, FiveAggregated, Aggregated, Truncate;
    match e {
      case Insert(x, _) => FoundedGrows(t.five, t.hourly, log, x);
      case Tick5(now) =>
        TruncateFacts(now, FIVE_MINUTES);
        Tick5Founded(t.five, t.raw, log, Truncate(now, FIVE_MINUTES) - FIVE_MINUTES);
      case TickHour(now) =>
        TruncateFacts(now, HOUR);
        TickHourFounded(t.hourly, t.five, log, Truncate(now, HOUR) - HOUR);
      case TickDay(_, _, _) =>
    }
  }

  lemma {:induction false} TiersFounded(es: seq<Event>, now: int)
    requires Clocked(es, now)
    ensures FiveFounded(Run(es).five, Inserted(es)) && HourlyFounded(Run(es).hourly, Inserted(es))
  {
    hide Step, FiveFounded, HourlyFounded, Clocked, Run, Inserted;
    if es == [] {
      NothingFounded();
    } else {
      var n := |es| - 1;
      assert es == es[..n] + [es[n]];
      ClockedPrefix(es[..n], es[n], now);
      TiersFounded(es[..n], es[n].now);
      RunStep(es[..n], es[n]);
      RawFromLog(es[..n]);
      StepFounded(Run(es[..n]), es[n], Inserted(es[..n]));
    }
  }

  lemma NothingFounded()
    ensures FiveFounded(Run([]).five, Inserted([])) && HourlyFounded(Run([]).hourly, Inserted([]))
  {
  }

  // ---------------------------------------------------------------- exact 5-minute buckets

  /** No sample of `[lo, hi)` is inserted from event `i` on. */
  ghost predicate Quiet(es: seq<Event>, i: nat, lo: int, hi: int) {
    forall j | i <= j < |es| && es[j].Insert? :: !(lo <= es[j].x.at < hi)
  }

  /** The bucket at `w` was aggregated, and its samples had all arrived by then. */
  ghost predicate FiveDone(es: seq<Event>, w: int) {
    exists i: nat :: i < |es| && es[i].Tick5? && Truncate(es[i].now, FIVE_MINUTES) == w + FIVE_MINUTES
                     && Quiet(es, i, w, w + FIVE_MINUTES)
  }

  lemma QuietPrefix(es: seq<Event>, e: Event, i: nat, lo: int, hi: int)
    requires Quiet(es + [e], i, lo, hi)
    ensures Quiet(es, i, lo, hi)
    ensures i <= |es| && e.Insert? ==> !(lo <= e.x.at < hi)
  {
    assert (es + [e])[|es|] == e;
    assert forall j | 0 <= j < |es| :: (es + [e])[j] == es[j];
  }

  /** Either the last event is the tick of bucket `w`, or the bucket was done before it and the
      event brings no sample for it. */
  lemma FiveDoneStep(es: seq<Event>, e: Event, w: int)
    requires FiveDone(es + [e], w)
    ensures (e.Tick5? && Truncate(e.now, FIVE_MINUTES) == w + FIVE_MINUTES)
            || (FiveDone(es, w) && (e.Insert? ==> !(w <= e.x.at < w + FIVE_MINUTES)))
  {
    hide Truncate;
    var all := es + [e];
    var i: nat :| i < |all| && all[i].Tick5? && Truncate(all[i].now, FIVE_MINUTES) == w + FIVE_MINUTES
                  && Quiet(all, i, w, w + FIVE_MINUTES);
    if i < |es| {
      QuietPrefix(es, e, i, w, w + FIVE_MINUTES);
      assert all[i] == es[i];
    }
  }

  lemma PreciseInsert(t: Table, log: seq<Sample>, x: Sample, s: Series, at: int, width: int)
    requires Precise(t, log, s, at, width) && !(at <= x.at < at + width)
    ensures Precise(t, log + [x], s, at, width)
  {
    ValuesStep(log, x, s, at, at + width);
  }

  lemma PreciseSame(t: Table, u: Table, log: seq<Sample>, s: Series, at: int, width: int)
    requires Precise(t, log, s, at, width) && SameAt(t, u, Key(s, at))
    ensures Precise(u, log, s, at, width)
  {
  }

  /** The bucket's own tick makes it the summary of its samples. */
  lemma TickMakesPrecise(t: Tiers, log: seq<Sample>, now: int, s: Series, w: int)
    requires now >= FIVE_MINUTES && Truncate(now, FIVE_MINUTES) == w + FIVE_MINUTES
    requires FiveFounded(t.five, log)
    requires Values(t.raw, s, w, w + FIVE_MINUTES) == Values(log, s, w, w + FIVE_MINUTES)
    ensures Precise(Step(t, Tick5(now)).five, log, s, w, FIVE_MINUTES)
  {
    hide Values, FiveAggregated, RawKept, Summarise, Truncate;
    TruncateFacts(now, FIVE_MINUTES);
    FiveAt(t.five, t.raw, w, s, w);
  }

  /** Any other event leaves a done bucket alone, until it is a day old. */
  lemma OtherKeepsFive(t: Tiers, e: Event, log: seq<Sample>, s: Series, w: int)
    requires Precise(t.five, log, s, w, FIVE_MINUTES)
    requires e.now >= FIVE_MINUTES && e.now - RETAIN_FIVE <= w
    requires e.Insert? ==> !(w <= e.x.at < w + FIVE_MINUTES)
    requires e.Tick5? ==> Truncate(e.now, FIVE_MINUTES) != w + FIVE_MINUTES
    ensures Precise(Step(t, e).five, if e.Insert? then log + [e.x] else log, s, w, FIVE_MINUTES)
  {
    hide Precise, FiveAggregated, Aggregated, RawKept, Truncate;
    match e {
      case Insert(x, _) => PreciseInsert(t.five, log, x, s, w, FIVE_MINUTES);
      case Tick5(now) =>
        TruncateFacts(now, FIVE_MINUTES);
        FiveAt(t.five, t.raw, Truncate(now, FIVE_MINUTES) - FIVE_MINUTES, s, w);
        PreciseSame(t.five, Step(t, e).five, log, s, w, FIVE_MINUTES);
      case TickHour(now) => PreciseSame(t.five, Step(t, e).five, log, s, w, FIVE_MINUTES);
      case TickDay(_, _, _) =>
    }
  }

  /** A bucket whose samples arrived before its tick is their summary from its tick on, for a day. */
  lemma {:induction false} FivePrecise(es: seq<Event>, now: int, s: Series, w: int)
    requires Clocked(es, now) && FiveDone(es, w) && now - RETAIN_FIVE <= w
    ensures Precise(Run(es).five, Inserted(es), s, w, FIVE_MINUTES)
  {
    hide Step, Clocked, Precise, FiveFounded, HourlyFounded, Truncate, Run, Inserted, Values;
    var n := |es| - 1;
    var es', e := es[..n], es[n];
    assert es == es' + [e];
    ClockedPrefix(es', e, now);
    RunStep(es', e);
    FiveDoneStep(es', e, w);
    if e.Tick5? && Truncate(e.now, FIVE_MINUTES) == w + FIVE_MINUTES {
      TruncateFacts(e.now, FIVE_MINUTES);
      TiersFounded(es', e.now);
      RawRetained(es', e.now, s, w, w + FIVE_MINUTES);
      TickMakesPrecise(Run(es'), Inserted(es'), e.now, s, w);
    } else {
      FivePrecise(es', e.now, s, w);
      OtherKeepsFive(Run(es'), e, Inserted(es'), s, w);
    }
  }

  // ---------------------------------------------------------------- exact hours

  /** The hour at `h` was aggregated after its twelve buckets, and no sample came later. */
  ghost predicate HourDone(es: seq<Event>, h: int) {
    exists g: nat :: g < |es| && HourDoneAt(es, h, g)
  }

  ghost predicate HourDoneAt(es: seq<Event>, h: int, g: nat)
    requires g < |es|
  {
    && es[g].TickHour? && Truncate(es[g].now, HOUR) == h + HOUR
    && (forall i | 0 <= i < 12 :: FiveDone(es[..g], h + i * FIVE_MINUTES))
    && Quiet(es, g, h, h + HOUR)
  }

  lemma FiveDoneLater(es: seq<Event>, g: nat, n: nat, h: int, w: int)
    requires g <= n <= |es| && FiveDone(es[..g], w) && Quiet(es, g, h, h + HOUR)
    requires h <= w && w + FIVE_MINUTES <= h + HOUR
    ensures FiveDone(es[..n], w)
  {
    hide Truncate;
    var i: nat :| i < g && es[..g][i].Tick5? && Truncate(es[..g][i].now, FIVE_MINUTES) == w + FIVE_MINUTES
                  && Quiet(es[..g], i, w, w + FIVE_MINUTES);
    assert es[..n][i] == es[i] == es[..g][i];
    forall j | i <= j < n && es[..n][j].Insert? ensures !(w <= es[..n][j].x.at < w + FIVE_MINUTES) {
      if j < g { assert es[..g][j] == es[..n][j]; }
    }
  }

  lemma HourDoneStep(es: seq<Event>, e: Event, h: int)
    requires HourDone(es + [e], h)
    ensures if e.TickHour? && Truncate(e.now, HOUR) == h + HOUR
            then forall i | 0 <= i < 12 :: FiveDone(es, h + i * FIVE_MINUTES)
            else HourDone(es, h) && (e.Insert? ==> !(h <= e.x.at < h + HOUR))
  {
    hide Truncate, FiveDone;
    var all := es + [e];
    assert all[..|es|] == es;
    var g: nat :| g < |all| && HourDoneAt(all, h, g);
    if e.TickHour? && Truncate(e.now, HOUR) == h + HOUR {
      forall i | 0 <= i < 12 ensures FiveDone(es, h + i * FIVE_MINUTES) {
        FiveDoneLater(all, g, |es|, h, h + i * FIVE_MINUTES);
      }
    } else {
      assert g < |es|;
      QuietPrefix(es, e, g, h, h + HOUR);
      assert all[g] == es[g] && all[..g] == es[..g];
      assert HourDoneAt(es, h, g);
    }
  }

  lemma FiveAligned(five: Table, log: seq<Sample>, s: Series, h: int)
    requires FiveFounded(five, log) && h % HOUR == 0
    ensures AlignedKeys(five, s, h, FIVE_MINUTES)
  {
    forall at | Key(s, at) in five ensures (at - h) % FIVE_MINUTES == 0 {
      assert Key(s, at).at % FIVE_MINUTES == 0;
      MultiplesDiffer(h, at);
    }
  }

  lemma MultiplesDiffer(h: int, at: int)
    requires h % HOUR == 0 && at % FIVE_MINUTES == 0
    ensures (at - h) % FIVE_MINUTES == 0
  {
    assert at - h == 300 * (at / 300 - 12 * (h / 3600));
  }

  /** An hour's row has the raw extremes of the first `n` buckets and an average between them; with equally
      filled buckets the average is the raw mean. */
  ghost predicate HourSlot(t: Table, log: seq<Sample>, s: Series, h: int, n: nat) {
    && Exact(t, log, s, h, n * FIVE_MINUTES)
    && (Even(log, s, h, FIVE_MINUTES, n) ==> Precise(t, log, s, h, n * FIVE_MINUTES))
  }

  lemma HourTickMakesSlot(t: Tiers, log: seq<Sample>, now: int, s: Series, h: int)
    requires Truncate(now, HOUR) == h + HOUR
    requires FiveFounded(t.five, log) && HourlyFounded(t.hourly, log)
    requires forall i | 0 <= i < 12 :: Precise(t.five, log, s, h + i * FIVE_MINUTES, FIVE_MINUTES)
    ensures HourSlot(Step(t, TickHour(now)).hourly, log, s, h, 12)
  {
    hide Exact, Precise, Even, Aggregated, AlignedKeys, Kept, Truncate, Values;
    TruncateFacts(now, HOUR);
    FiveAligned(t.five, log, s, h);
    forall i | 0 <= i < 12 ensures Exact(t.five, log, s, h + i * FIVE_MINUTES, FIVE_MINUTES) {
      PreciseIsExact(t.five, log, s, h + i * FIVE_MINUTES, FIVE_MINUTES);
    }
    AggregateExact(t.hourly, t.five, log, s, h, FIVE_MINUTES, 12);
    if Even(log, s, h, FIVE_MINUTES, 12) { AggregatePrecise(t.hourly, t.five, log, s, h, FIVE_MINUTES, 12); }
  }

  lemma HourSlotInsert(t: Table, log: seq<Sample>, x: Sample, s: Series, h: int, n: nat)
    requires HourSlot(t, log, s, h, n) && !(h <= x.at < h + n * FIVE_MINUTES)
    ensures HourSlot(t, log + [x], s, h, n)
  {
    hide Values;
    ValuesStep(log, x, s, h, h + n * FIVE_MINUTES);
    forall i | 0 <= i < n
      ensures var w := h + i * FIVE_MINUTES;
              Values(log + [x], s, w, w + FIVE_MINUTES) == Values(log, s, w, w + FIVE_MINUTES)
    {
      ValuesStep(log, x, s, h + i * FIVE_MINUTES, h + i * FIVE_MINUTES + FIVE_MINUTES);
    }
  }

  lemma HourSlotSame(t: Table, u: Table, log: seq<Sample>, s: Series, h: int, n: nat)
    requires HourSlot(t, log, s, h, n) && SameAt(t, u, Key(s, h))
    ensures HourSlot(u, log, s, h, n)
  {
    hide Even;
  }

  lemma OtherKeepsHour(t: Tiers, e: Event, log: seq<Sample>, s: Series, h: int, n: nat)
    requires HourSlot(t.hourly, log, s, h, n)
    requires e.now - RETAIN_HOURLY <= h
    requires e.Insert? ==> !(h <= e.x.at < h + n * FIVE_MINUTES)
    requires e.TickHour? ==> Truncate(e.now, HOUR) != h + HOUR
    ensures HourSlot(Step(t, e).hourly, if e.Insert? then log + [e.x] else log, s, h, n)
  {
    hide HourSlot, FiveAggregated, Aggregated, RawKept, Truncate;
    match e {
      case Insert(x, _) => HourSlotInsert(t.hourly, log, x, s, h, n);
      case Tick5(_) =>
      case TickHour(now) =>
        AggregatedKeys(t.hourly, t.five, Truncate(now, HOUR) - HOUR, Truncate(now, HOUR), s, h);
        HourSlotSame(t.hourly, Step(t, e).hourly, log, s, h, n);
      case TickDay(_, _, _) => HourSlotSame(t.hourly, Step(t, e).hourly, log, s, h, n);
    }
  }

  /** An hour aggregated after its buckets is exact from then on, for ninety days. */
  lemma {:induction false} HourExact(es: seq<Event>, now: int, s: Series, h: int)
    requires Clocked(es, now) && HourDone(es, h) && now - RETAIN_HOURLY <= h
    ensures HourSlot(Run(es).hourly, Inserted(es), s, h, 12)
  {
    hide Step, Clocked, HourSlot, FiveFounded, HourlyFounded, Truncate, Run, Inserted, FiveDone, HourDone;
    NotBlank(es, h);
    var n := |es| - 1;
    var es', e := es[..n], es[n];
    assert es == es' + [e];
    ClockedPrefix(es', e, now);
    RunStep(es', e);
    HourDoneStep(es', e, h);
    if e.TickHour? && Truncate(e.now, HOUR) == h + HOUR {
      TruncateFacts(e.now, HOUR);
      TiersFounded(es', e.now);
      forall i | 0 <= i < 12 ensures Precise(Run(es').five, Inserted(es'), s, h + i * FIVE_MINUTES, FIVE_MINUTES) {
        FivePrecise(es', e.now, s, h + i * FIVE_MINUTES);
      }
      HourTickMakesSlot(Run(es'), Inserted(es'), e.now, s, h);
    } else {
      HourExact(es', e.now, s, h);
      OtherKeepsHour(Run(es'), e, Inserted(es'), s, h, 12);
    }
  }

  lemma NotBlank(es: seq<Event>, h: int)
    requires HourDone(es, h)
    ensures es != []
  {
  }
}
