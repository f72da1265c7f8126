/** Samples that arrive after their 5-minute bucket was aggregated. */
module MetricLate {
  import opened MetricTiers
  import opened MetricRuns

  /** The samples outside the bucket at `w`. */
  function Outside(raw: seq<Sample>, w: int): seq<Sample> {
    if raw == [] then []
    else
      var n := |raw| - 1;
      if w <= raw[n].at < w + FIVE_MINUTES then Outside(raw[..n], w) else Outside(raw[..n], w) + [raw[n]]
  }

  lemma OutsideStep(raw: seq<Sample>, x: Sample, w: int)
    ensures Outside(raw + [x], w) == if w <= x.at < w + FIVE_MINUTES then Outside(raw, w) else Outside(raw, w) + [x]
  {
    assert (raw + [x])[..|raw|] == raw;
  }

  lemma {:induction false} KeptOutside(raw: seq<Sample>, cutoff: int, w: int)
    ensures Outside(RawKept(raw, cutoff), w) == RawKept(Outside(raw, w), cutoff)
  {
    if raw != [] {
      var n := |raw| - 1;
      KeptOutside(raw[..n], cutoff, w);
      OutsideStep(RawKept(raw[..n], cutoff), raw[n], w);
      var rest := Outside(raw[..n], w);
      assert (rest + [raw[n]])[..|rest|] == rest;
    }
  }

  lemma {:induction false} GroupOutside(raw: seq<Sample>, w: int, from: int, k: Key)
    requires from + FIVE_MINUTES <= w || w + FIVE_MINUTES <= from
    ensures Group(Outside(raw, w), from, from + FIVE_MINUTES, k) == Group(raw, from, from + FIVE_MINUTES, k)
  {
    hide Bucket;
    if raw != [] {
      var n := |raw| - 1;
      GroupOutside(raw[..n], w, from, k);
      var rest := Outside(raw[..n], w);
      assert (rest + [raw[n]])[..|rest|] == rest;
    }
  }

  lemma {:induction false} OutsideHas(raw: seq<Sample>, w: int, x: Sample)
    ensures x in Outside(raw, w) <==> x in raw && !(w <= x.at < w + FIVE_MINUTES)
  {
    if raw != [] {
      OutsideHas(raw[..|raw| - 1], w, x);
      assert x in raw <==> x in raw[..|raw| - 1] || x == raw[|raw| - 1];
    }
  }

  lemma KeysOutside(raw: seq<Sample>, w: int, from: int)
    requires from + FIVE_MINUTES <= w || w + FIVE_MINUTES <= from
    ensures GroupKeys(Outside(raw, w), from, from + FIVE_MINUTES) == GroupKeys(raw, from, from + FIVE_MINUTES)
  {
    hide Bucket, Outside;
    forall x { OutsideHas(raw, w, x); }
    forall i | 0 <= i < |raw| && from <= raw[i].at < from + FIVE_MINUTES
      ensures Key(raw[i].series, Bucket(raw[i].at)) in GroupKeys(Outside(raw, w), from, from + FIVE_MINUTES)
    {
      assert raw[i] in Outside(raw, w);
    }
    forall i | 0 <= i < |Outside(raw, w)| && from <= Outside(raw, w)[i].at < from + FIVE_MINUTES
      ensures Key(Outside(raw, w)[i].series, Bucket(Outside(raw, w)[i].at)) in GroupKeys(raw, from, from + FIVE_MINUTES)
    {
      assert Outside(raw, w)[i] in raw;
    }
  }

  /** The aggregation of one bucket reads no sample of another. */
  lemma FiveOutside(five: Table, raw: seq<Sample>, w: int, from: int)
    requires from + FIVE_MINUTES <= w || w + FIVE_MINUTES <= from
    ensures FiveAggregated(five, Outside(raw, w), from, from + FIVE_MINUTES) ==
            FiveAggregated(five, raw, from, from + FIVE_MINUTES)
  {
    hide Group, GroupKeys, Outside, Summarise;
    KeysOutside(raw, w, from);
    var to := from + FIVE_MINUTES;
    forall k ensures Group(Outside(raw, w), from, to, k) == Group(raw, from, to, k) { GroupOutside(raw, w, from, k); }
    forall k | k in GroupKeys(raw, from, to) ensures Group(raw, from, to, k) != [] { GroupNonEmpty(raw, from, to, k); }
  }

  /** Two states that differ at most in raw samples of the bucket at `w`. */
  ghost predicate AlikeBut(t: Tiers, u: Tiers, w: int) {
    t.five == u.five && t.hourly == u.hourly && t.daily == u.daily && Outside(t.raw, w) == Outside(u.raw, w)
  }

  lemma StepAlike(t: Tiers, u: Tiers, e: Event, w: int)
    requires AlikeBut(t, u, w) && w % FIVE_MINUTES == 0
    requires e.Tick5? ==> Truncate(e.now, FIVE_MINUTES) != w + FIVE_MINUTES
    ensures AlikeBut(Step(t, e), Step(u, e), w)
  {
    hide Outside, FiveAggregated, Aggregated, RawKept, Kept, Truncate;
    match e {
      case Insert(x, _) =>
        OutsideStep(t.raw, x, w);
        OutsideStep(u.raw, x, w);
      case Tick5(now) =>
        TruncateFacts(now, FIVE_MINUTES);
        var from := Truncate(now, FIVE_MINUTES) - FIVE_MINUTES;
        FiveOutside(t.five, t.raw, w, from);
        FiveOutside(u.five, u.raw, w, from);
        KeptOutside(t.raw, now - RETAIN_RAW, w);
        KeptOutside(u.raw, now - RETAIN_RAW, w);
      case _ =>
    }
  }

  lemma LateBase(before: seq<Event>, x: Sample, now: int, w: int)
    requires w <= x.at < w + FIVE_MINUTES
    ensures AlikeBut(Run(before + [Insert(x, now)]), Run(before), w)
  {
    hide Outside, Run, FiveAggregated, Aggregated, RawKept, Kept, Truncate;
    RunStep(before, Insert(x, now));
    OutsideStep(Run(before).raw, x, w);
  }

  lemma LateStep(es: seq<Event>, fs: seq<Event>, e: Event, w: int)
    requires AlikeBut(Run(es), Run(fs), w) && w % FIVE_MINUTES == 0
    requires e.Tick5? ==> Truncate(e.now, FIVE_MINUTES) != w + FIVE_MINUTES
    ensures AlikeBut(Run(es + [e]), Run(fs + [e]), w)
  {
    hide Run, AlikeBut, Truncate, Step;
    RunStep(es, e);
    RunStep(fs, e);
    StepAlike(Run(es), Run(fs), e, w);
  }

  lemma BucketStart(at: int)
    ensures var w := at - at % FIVE_MINUTES; w % FIVE_MINUTES == 0 && w <= at < w + FIVE_MINUTES
  {
  }

  /** A sample whose bucket is not aggregated again leaves no trace in any tier. */
  lemma {:induction false} LateSampleInvisible(before: seq<Event>, x: Sample, now: int, after: seq<Event>)
    requires var w := x.at - x.at % FIVE_MINUTES;
             forall i | 0 <= i < |after| && after[i].Tick5? :: Truncate(after[i].now, FIVE_MINUTES) != w + FIVE_MINUTES
    ensures AlikeBut(Run(before + [Insert(x, now)] + after), Run(before + after), x.at - x.at % FIVE_MINUTES)
  {
    hide Run, AlikeBut, Truncate;
    var w := x.at - x.at % FIVE_MINUTES;
    BucketStart(x.at);
    if after == [] {
      assert before + [Insert(x, now)] + after == before + [Insert(x, now)] && before + after == before;
      LateBase(before, x, now, w);
    } else {
      var n := |after| - 1;
      LateSampleInvisible(before, x, now, after[..n]);
      assert before + [Insert(x, now)] + after == before + [Insert(x, now)] + after[..n] + [after[n]];
      assert before + after == before + after[..n] + [after[n]];
      LateStep(before + [Insert(x, now)] + after[..n], before + after[..n], after[n], w);
    }
  }
}
