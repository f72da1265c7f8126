/** The check results of an hour and the rows they become. */
module CheckCounts {
  import opened MetricTiers
  import opened CheckTiers

  /** Every result ever recorded. */
  function Recorded(es: seq<CheckEvent>): seq<Check> {
    if es == [] then []
    else
      var n := |es| - 1;
      if es[n].Result? then Recorded(es[..n]) + [es[n].c] else Recorded(es[..n])
  }

  ghost predicate Clocked(es: seq<CheckEvent>, now: int) {
    && (forall i, j | 0 <= i < j < |es| :: es[i].now <= es[j].now)
    && (forall i | 0 <= i < |es| :: es[i].now <= now)
  }

  predicate StepOf(e: CheckEvent, h: int) { e.HourStep? && Truncate(e.now, HOUR) == h + HOUR }

  /** How often the hour at `h` was aggregated. */
  function Times(es: seq<CheckEvent>, h: int): nat {
    if es == [] then 0
    else
      var n := |es| - 1;
      Times(es[..n], h) + if StepOf(es[n], h) then 1 else 0
  }

  /** The results of the hour at `h` all arrived before its first step. */
  ghost predicate Arrived(es: seq<CheckEvent>, h: int) {
    forall i, j | 0 <= i < j < |es| && StepOf(es[i], h) && es[j].Result? :: !(h <= es[j].c.at < h + HOUR)
  }

  lemma Prefixes(es: seq<CheckEvent>, e: CheckEvent, now: int, h: int)
    requires Clocked(es + [e], now)
    ensures Clocked(es, e.now) && e.now <= now
    ensures Arrived(es + [e], h) ==> Arrived(es, h)
    ensures Arrived(es + [e], h) && e.Result? && h <= e.c.at < h + HOUR ==> Times(es, h) == 0
    ensures Times(es + [e], h) == Times(es, h) + if StepOf(e, h) then 1 else 0
    ensures CheckRun(es + [e]) == Advance(CheckRun(es), e)
    ensures Recorded(es + [e]) == if e.Result? then Recorded(es) + [e.c] else Recorded(es)
  {
    hide Advance, StepOf;
    var all := es + [e];
    assert all[..|es|] == es && all[|es|] == e;
    assert forall i | 0 <= i < |es| :: all[i] == es[i];
    if Arrived(all, h) && e.Result? && h <= e.c.at < h + HOUR {
      forall i | 0 <= i < |es| ensures !StepOf(es[i], h) {
        assert all[i] == es[i];
      }
      NoTimes(es, h);
    }
  }

  lemma {:induction false} NoTimes(es: seq<CheckEvent>, h: int)
    requires forall i | 0 <= i < |es| :: !StepOf(es[i], h)
    ensures Times(es, h) == 0
  {
    if es != [] { NoTimes(es[..|es| - 1], h); }
  }

  // ---------------------------------------------------------------- raw results

  lemma ChecksStep(checks: seq<Check>, c: Check, m: string, lo: int, hi: int)
    ensures Ups(checks + [c], m, lo, hi) ==
            Ups(checks, m, lo, hi) + if Selects(c, m, lo, hi) && c.status == Up then [c.latency] else []
    ensures Downs(checks + [c], m, lo, hi) ==
            Downs(checks, m, lo, hi) + if Selects(c, m, lo, hi) && c.status == Down then 1 else 0
  {
    assert (checks + [c])[..|checks|] == checks;
  }

  lemma {:induction false} ChecksSplit(checks: seq<Check>, m: string, lo: int, mid: int, hi: int)
    requires lo <= mid <= hi
    ensures |Ups(checks, m, lo, hi)| == |Ups(checks, m, lo, mid)| + |Ups(checks, m, mid, hi)|
    ensures forall v :: v in Ups(checks, m, lo, hi) <==> v in Ups(checks, m, lo, mid) || v in Ups(checks, m, mid, hi)
    ensures Downs(checks, m, lo, hi) == Downs(checks, m, lo, mid) + Downs(checks, m, mid, hi)
  {
    if checks != [] { ChecksSplit(checks[..|checks| - 1], m, lo, mid, hi); }
  }

  lemma {:induction false} NoChecks(checks: seq<Check>, m: string, lo: int)
    ensures Ups(checks, m, lo, lo) == [] && Downs(checks, m, lo, lo) == 0
  {
    if checks != [] { NoChecks(checks[..|checks| - 1], m, lo); }
  }

  lemma {:induction false} KeptChecks(checks: seq<Check>, cutoff: int, m: string, lo: int, hi: int)
    requires cutoff <= lo
    ensures Ups(ChecksKept(checks, cutoff), m, lo, hi) == Ups(checks, m, lo, hi)
    ensures Downs(ChecksKept(checks, cutoff), m, lo, hi) == Downs(checks, m, lo, hi)
  {
    if checks != [] {
      var n := |checks| - 1;
      KeptChecks(checks[..n], cutoff, m, lo, hi);
      if checks[n].at >= cutoff { ChecksStep(ChecksKept(checks[..n], cutoff), checks[n], m, lo, hi); }
    }
  }

  /** Two tables hold the same results of a monitor in a window. */
  ghost predicate SameChecks(a: seq<Check>, b: seq<Check>, m: string, lo: int, hi: int) {
    Ups(a, m, lo, hi) == Ups(b, m, lo, hi) && Downs(a, m, lo, hi) == Downs(b, m, lo, hi)
  }

  lemma SameStep(t: State, e: CheckEvent, log: seq<Check>, m: string, lo: int, hi: int)
    requires SameChecks(t.raw, log, m, lo, hi) && e.now - RETAIN_CHECKS <= lo
    ensures SameChecks(Advance(t, e).raw, if e.Result? then log + [e.c] else log, m, lo, hi)
  {
    hide Ups, Downs, ChecksKept, HourlyAggregated, DailyAggregated, TableKept;
    match e {
      case Result(c, _) => ChecksStep(t.raw, c, m, lo, hi); ChecksStep(log, c, m, lo, hi);
      case HourStep(now) => KeptChecks(t.raw, now - RETAIN_CHECKS, m, lo, hi);
      case DayStep(_, _, _) =>
    }
  }

  /** Results of the last twelve hours are all still in the raw table. */
  lemma {:induction false} ChecksRetained(es: seq<CheckEvent>, now: int, m: string, lo: int, hi: int)
    requires Clocked(es, now) && now - RETAIN_CHECKS <= lo
    ensures SameChecks(CheckRun(es).raw, Recorded(es), m, lo, hi)
  {
    hide Advance, SameChecks, Clocked, Times, Arrived;
    if es == [] {
      NothingRecorded(m, lo, hi);
    } else {
      var n := |es| - 1;
      assert es == es[..n] + [es[n]];
      Prefixes(es[..n], es[n], now, lo);
      ChecksRetained(es[..n], es[n].now, m, lo, hi);
      SameStep(CheckRun(es[..n]), es[n], Recorded(es[..n]), m, lo, hi);
    }
  }

  lemma NothingRecorded(m: string, lo: int, hi: int)
    ensures SameChecks(CheckRun([]).raw, Recorded([]), m, lo, hi)
  {
  }

  // ---------------------------------------------------------------- hourly rows

  function Repeat(r: seq<CheckRow>, c: nat): seq<CheckRow> {
    if c == 0 then [] else Repeat(r, c - 1) + r
  }

  lemma RowsAtAppend(rows: seq<CheckRow>, r: CheckRow, lo: int, hi: int)
    ensures RowsAt(rows + [r], lo, hi) == RowsAt(rows, lo, hi) + if lo <= r.at < hi then [r] else []
  {
    assert (rows + [r])[..|rows|] == rows;
  }

  lemma {:induction false} RowsAtKept(rows: seq<CheckRow>, cutoff: int, lo: int, hi: int)
    requires cutoff <= lo
    ensures RowsAt(RowsKept(rows, cutoff), lo, hi) == RowsAt(rows, lo, hi)
  {
    if rows != [] {
      var n := |rows| - 1;
      RowsAtKept(rows[..n], cutoff, lo, hi);
      if rows[n].at >= cutoff { RowsAtAppend(RowsKept(rows[..n], cutoff), rows[n], lo, hi); }
    }
  }

  /** The hour at `h` shows as the same row as many times as it was aggregated. */
  ghost predicate HourRows(rows: seq<CheckRow>, log: seq<Check>, m: string, h: int, times: nat) {
    RowsAt(rows, h, h + HOUR) == Repeat(HourRow(log, m, h, h + HOUR), times)
  }

  lemma HourAppended(rows: seq<CheckRow>, log: seq<Check>, m: string, h: int, times: nat, raw: seq<Check>, w: int)
    requires HourRows(rows, log, m, h, times) && h % HOUR == 0 && w % HOUR == 0
    requires w == h ==> SameChecks(raw, log, m, h, h + HOUR)
    ensures HourRows(rows + HourRow(raw, m, w, w + HOUR), log, m, h, times + if w == h then 1 else 0)
  {
    hide Ups, Downs, RowsAt, Summarise, Percent;
    var added := HourRow(raw, m, w, w + HOUR);
    if added == [] {
      assert rows + added == rows;
      if w == h { assert Repeat(added, times) + added == Repeat(added, times); }
    } else {
      assert added == [added[0]] && added[0].at == w;
      RowsAtAppend(rows, added[0], h, h + HOUR);
      if w != h { Apart(w, h); }
    }
  }

  lemma Apart(w: int, h: int)
    requires w != h && w % HOUR == 0 && h % HOUR == 0
    ensures !(h <= w < h + HOUR)
  {
  }

  lemma HourRowsInsert(rows: seq<CheckRow>, log: seq<Check>, c: Check, m: string, h: int, times: nat)
    requires HourRows(rows, log, m, h, times) && (h <= c.at < h + HOUR ==> times == 0)
    ensures HourRows(rows, log + [c], m, h, times)
  {
    hide Ups, Downs, RowsAt, Summarise, Percent;
    ChecksStep(log, c, m, h, h + HOUR);
    if !(h <= c.at < h + HOUR) {
      assert Ups(log, m, h, h + HOUR) + [] == Ups(log, m, h, h + HOUR);
    } else {
      NoRepeat(HourRow(log, m, h, h + HOUR), HourRow(log + [c], m, h, h + HOUR));
    }
  }

  lemma NoRepeat(a: seq<CheckRow>, b: seq<CheckRow>)
    ensures Repeat(a, 0) == Repeat(b, 0)
  {
  }

  lemma HourRowsKept(t: RowTable, cutoff: int, log: seq<Check>, m: string, h: int, times: nat)
    requires HourRows(Get(t, m), log, m, h, times) && cutoff <= h
    ensures HourRows(Get(TableKept(t, cutoff), m), log, m, h, times)
  {
    hide RowsAt, RowsKept, HourRow, Repeat;
    if m in t { RowsAtKept(t[m], cutoff, h, h + HOUR); }
  }

  lemma HourRowsStep(t: State, e: CheckEvent, log: seq<Check>, m: string, h: int, times: nat)
    requires h % HOUR == 0 && HourRows(Get(t.hourly, m), log, m, h, times)
    requires e.now - RETAIN_HOURLY <= h
    requires StepOf(e, h) ==> SameChecks(t.raw, log, m, h, h + HOUR)
    requires e.Result? && h <= e.c.at < h + HOUR ==> times == 0
    ensures HourRows(Get(Advance(t, e).hourly, m), if e.Result? then log + [e.c] else log, m, h,
                     times + if StepOf(e, h) then 1 else 0)
  {
    hide HourRows, SameChecks, Truncate, ChecksKept, HourlyAggregated, DailyAggregated, TableKept, HourRow;
    match e {
      case Result(c, _) => HourRowsInsert(Get(t.hourly, m), log, c, m, h, times);
      case HourStep(now) =>
        var w := Truncate(now, HOUR) - HOUR;
        HourlyAt(t.hourly, t.raw, w, w + HOUR, m);
        HourAligned(now);
        HourAppended(Get(t.hourly, m), log, m, h, times, t.raw, w);
      case DayStep(_, _, now) => HourRowsKept(t.hourly, now - RETAIN_HOURLY, log, m, h, times);
    }
  }

  lemma HourAligned(now: int)
    ensures (Truncate(now, HOUR) - HOUR) % HOUR == 0 && now < Truncate(now, HOUR) + HOUR
  {
    assert EPOCH % HOUR == 0;
  }

  /** For ninety days an hour's rows are copies of the summary of all its results, one per aggregation. */
  lemma {:induction false} HourRowsAre(es: seq<CheckEvent>, now: int, m: string, h: int)
    requires Clocked(es, now) && Arrived(es, h) && h % HOUR == 0 && now - RETAIN_HOURLY <= h
    ensures HourRows(Get(CheckRun(es).hourly, m), Recorded(es), m, h, Times(es, h))
  {
    hide Advance, HourRows, SameChecks, Clocked, Arrived, Truncate;
    if es == [] {
      NoHourRows(m, h);
    } else {
      var n := |es| - 1;
      assert es == es[..n] + [es[n]];
      Prefixes(es[..n], es[n], now, h);
      HourRowsAre(es[..n], es[n].now, m, h);
      if StepOf(es[n], h) {
        HourAligned(es[n].now);
        ChecksRetained(es[..n], es[n].now, m, h, h + HOUR);
      }
      HourRowsStep(CheckRun(es[..n]), es[n], Recorded(es[..n]), m, h, Times(es[..n], h));
    }
  }

  lemma NoHourRows(m: string, h: int)
    ensures HourRows(Get(CheckRun([]).hourly, m), Recorded([]), m, h, 0)
  {
  }
}
