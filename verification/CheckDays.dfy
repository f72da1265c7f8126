/** Conservation of check counts up to the daily row, whatever the ticks and however late the results. */
module CheckDays {
  import opened MetricTiers
  import opened MetricExactness
  import opened CheckTiers
  import opened CheckCounts
  import opened Options

  // ---------------------------------------------------------------- the daily row

  lemma TotalsAppend(rows: seq<CheckRow>, r: CheckRow)
    ensures Success(rows + [r]) == Success(rows) + r.success
    ensures Fail(rows + [r]) == Fail(rows) + r.fail
    ensures Latencies(rows + [r]) == Latencies(rows) + if r.latency.Some? then [r.latency.value] else []
  {
    assert (rows + [r])[..|rows|] == rows;
  }

  /** The extremes of latency summaries are latencies. */
  ghost predicate Attained(ls: seq<Summary>, ups: seq<real>) {
    forall l | l in ls :: l.min in ups && l.max in ups && l.min <= l.avg <= l.max
  }

  /** Every latency lies in a summary. */
  ghost predicate Enclosed(ls: seq<Summary>, ups: seq<real>) {
    forall v | v in ups :: exists l :: l in ls && l.min <= v <= l.max
  }

  ghost predicate Spans(ls: seq<Summary>, ups: seq<real>) {
    Attained(ls, ups) && Enclosed(ls, ups)
  }

  lemma AttainedAt(ls: seq<Summary>, ups: seq<real>, i: nat)
    requires Attained(ls, ups) && i < |ls|
    ensures ls[i].min in ups && ls[i].max in ups && ls[i].min <= ls[i].avg <= ls[i].max
  {
    assert ls[i] in ls;
  }

  lemma EnclosedBy(ls: seq<Summary>, ups: seq<real>, v: real) returns (i: nat)
    requires Enclosed(ls, ups) && v in ups
    ensures i < |ls| && ls[i].min <= v <= ls[i].max
  {
    var l :| l in ls && l.min <= v <= l.max;
    i :| i < |ls| && ls[i] == l;
  }

  lemma SpansUnion(ls: seq<Summary>, a: seq<Summary>, b: seq<Summary>, vs: seq<real>, va: seq<real>, vb: seq<real>)
    requires Spans(a, va) && Spans(b, vb)
    requires forall l :: l in ls <==> l in a || l in b
    requires forall v :: v in vs <==> v in va || v in vb
    ensures Spans(ls, vs)
  {
  }

  /** Rows account for the results they stand for. */
  ghost predicate Accounts(rows: seq<CheckRow>, ups: seq<real>, downs: nat) {
    && Success(rows) == |ups| && Fail(rows) == downs
    && Spans(Latencies(rows), ups)
    && (rows == [] <==> |ups| + downs == 0)
  }

  lemma NothingSpans()
    ensures Spans([], [])
  {
  }

  lemma SummarySpans(ups: seq<real>)
    requires ups != []
    ensures Spans([Summarise(ups)], ups)
  {
    hide Mean;
    SummariseFaithful(ups);
    var l := Summarise(ups);
    assert l in [l];
    assert Min(ups) in ups && Max(ups) in ups;
    forall v | v in ups ensures l.min <= v <= l.max {
      var i :| 0 <= i < |ups| && ups[i] == v;
    }
  }

  /** The row a day should have if its results are each counted `c` times. */
  ghost predicate DayIs(row: CheckRow, ups: seq<real>, downs: nat, d: int, c: nat) {
    && row.at == d && row.success == c * |ups| && row.fail == c * downs
    && Uptime(row.uptime, |ups|, downs)
    && (row.latency.None? <==> ups == [])
    && (ups != [] ==> row.latency.value.min == Min(ups) && row.latency.value.max == Max(ups)
                      && Min(ups) <= row.latency.value.avg <= Max(ups))
  }

  lemma Distributes(c: nat, x: nat, y: nat)
    ensures c * (x + y) == c * x + c * y
  {
  }

  lemma RealProduct(c: nat, n: nat)
    ensures (c * n) as real == (c as real) * (n as real)
  {
  }

  /** The same share of `c` times as many. */
  lemma UptimeScaled(u: Option<real>, c: nat, s: nat, f: nat)
    requires c > 0 && s + f > 0 && c * s + c * f > 0 && Uptime(u, c * s, c * f)
    ensures Uptime(u, s, f)
  {
    Distributes(c, s, f);
    RealProduct(c, s);
    RealProduct(c, s + f);
    Cancel(c as real, u.value, (s + f) as real, s as real);
  }

  lemma Cancel(c: real, u: real, n: real, s: real)
    requires c > 0.0 && u * (c * n) == 100.0 * (c * s)
    ensures u * n == 100.0 * s
  {
    assert c * (u * n - 100.0 * s) == u * (c * n) - 100.0 * (c * s);
  }

  lemma LowestSpan(ls: seq<Summary>, ups: seq<real>)
    requires Spans(ls, ups) && ls != []
    ensures ups != [] && Min(Mins(ls)) == Min(ups)
  {
    hide Min, Attained, Enclosed;
    AttainedAt(ls, ups, 0);
    var lo := Min(Mins(ls));
    var i: nat :| i < |ls| && Mins(ls)[i] == lo;
    AttainedAt(ls, ups, i);
    var j := EnclosedBy(ls, ups, Min(ups));
    assert Mins(ls)[j] == ls[j].min;
    var k :| 0 <= k < |ups| && ups[k] == lo;
  }

  lemma HighestSpan(ls: seq<Summary>, ups: seq<real>)
    requires Spans(ls, ups) && ls != []
    ensures ups != [] && Max(Maxs(ls)) == Max(ups)
  {
    hide Max, Attained, Enclosed;
    AttainedAt(ls, ups, 0);
    var hi := Max(Maxs(ls));
    var i: nat :| i < |ls| && Maxs(ls)[i] == hi;
    AttainedAt(ls, ups, i);
    var j := EnclosedBy(ls, ups, Max(ups));
    assert Maxs(ls)[j] == ls[j].max;
    var k :| 0 <= k < |ups| && ups[k] == hi;
  }

  lemma CombineSpans(ls: seq<Summary>, ups: seq<real>)
    requires Spans(ls, ups) && ls != []
    ensures ups != [] && Combine(ls).min == Min(ups) && Combine(ls).max == Max(ups)
    ensures Min(ups) <= Combine(ls).avg <= Max(ups)
  {
    hide Mean, Min, Max, Mins, Maxs, Attained, Enclosed;
    LowestSpan(ls, ups);
    HighestSpan(ls, ups);
    forall i | 0 <= i < |ls| ensures ls[i].min <= ls[i].avg <= ls[i].max {
      AttainedAt(ls, ups, i);
    }
    AvgsBetween(ls);
  }

  lemma SpansNothing(ls: seq<Summary>, ups: seq<real>)
    requires Spans(ls, ups)
    ensures ls == [] <==> ups == []
  {
    hide Attained, Enclosed;
    if ls != [] { AttainedAt(ls, ups, 0); }
    if ups != [] { var _ := EnclosedBy(ls, ups, ups[0]); }
  }

  lemma DayRowIs(rows: seq<CheckRow>, ups: seq<real>, downs: nat, d: int)
    requires Accounts(rows, ups, downs)
    ensures DayRow(rows, d) == [] <==> |ups| + downs == 0
    ensures |ups| + downs > 0 ==> |DayRow(rows, d)| == 1 && DayIs(DayRow(rows, d)[0], ups, downs, d, 1)
  {
    hide Min, Max, Combine, Success, Fail, Latencies, Percent, Spans;
    if |ups| + downs > 0 {
      SpansNothing(Latencies(rows), ups);
      if ups != [] { CombineSpans(Latencies(rows), ups); }
    }
  }

  // ---------------------------------------------------------------- what the hourly steps count

  function Windowed(log: seq<Check>, lo: int, hi: int): seq<Check> {
    if log == [] then []
    else
      var n := |log| - 1;
      if lo <= log[n].at < hi then Windowed(log[..n], lo, hi) + [log[n]] else Windowed(log[..n], lo, hi)
  }

  /** Every hourly step counts the results of its hour that have been recorded by then. */
  function Counted(es: seq<CheckEvent>): seq<Check> {
    if es == [] then []
    else
      var n := |es| - 1;
      Counted(es[..n]) + CountedBy(es[n], Recorded(es[..n]))
  }

  function CountedBy(e: CheckEvent, log: seq<Check>): seq<Check> {
    match e
    case HourStep(now) => Windowed(log, Truncate(now, HOUR) - HOUR, Truncate(now, HOUR))
    case _ => []
  }

  lemma CountedStep(es: seq<CheckEvent>, e: CheckEvent)
    ensures Counted(es + [e]) == Counted(es) + CountedBy(e, Recorded(es))
    ensures Recorded(es + [e]) == if e.Result? then Recorded(es) + [e.c] else Recorded(es)
    ensures CheckRun(es + [e]) == Advance(CheckRun(es), e)
  {
    hide CountedBy, Advance;
    assert (es + [e])[..|es|] == es;
  }

  lemma WindowedStep(log: seq<Check>, c: Check, lo: int, hi: int)
    ensures Windowed(log + [c], lo, hi) == Windowed(log, lo, hi) + if lo <= c.at < hi then [c] else []
  {
    assert (log + [c])[..|log|] == log;
  }

  lemma EmptyChecks(m: string, lo: int, hi: int)
    ensures Ups([], m, lo, hi) == [] && Downs([], m, lo, hi) == 0
  {
  }

  lemma {:induction false} ChecksConcat(a: seq<Check>, b: seq<Check>, m: string, lo: int, hi: int)
    ensures Ups(a + b, m, lo, hi) == Ups(a, m, lo, hi) + Ups(b, m, lo, hi)
    ensures Downs(a + b, m, lo, hi) == Downs(a, m, lo, hi) + Downs(b, m, lo, hi)
  {
    hide Ups, Downs, Selects;
    if b == [] {
      EmptyChecks(m, lo, hi);
      assert a + b == a && Ups(a, m, lo, hi) + [] == Ups(a, m, lo, hi);
    } else {
      var n := |b| - 1;
      ChecksConcat(a, b[..n], m, lo, hi);
      assert a + b == (a + b[..n]) + [b[n]] && b == b[..n] + [b[n]];
      ChecksStep(a + b[..n], b[n], m, lo, hi);
      ChecksStep(b[..n], b[n], m, lo, hi);
    }
  }

  /** Of the results in `[wlo, whi)`, those in `[lo, hi)`: all or none. */
  lemma {:induction false} WindowIn(log: seq<Check>, wlo: int, whi: int, m: string, lo: int, hi: int)
    requires (lo <= wlo && whi <= hi) || whi <= lo || hi <= wlo
    ensures var inside := lo <= wlo && whi <= hi;
            && Ups(Windowed(log, wlo, whi), m, lo, hi) == (if inside then Ups(log, m, wlo, whi) else [])
            && Downs(Windowed(log, wlo, whi), m, lo, hi) == if inside then Downs(log, m, wlo, whi) else 0
  {
    if log != [] {
      var n := |log| - 1;
      WindowIn(log[..n], wlo, whi, m, lo, hi);
      if wlo <= log[n].at < whi { ChecksStep(Windowed(log[..n], wlo, whi), log[n], m, lo, hi); }
    }
  }

  // ---------------------------------------------------------------- the hourly rows account for them

  lemma RowAccounts(rows: seq<CheckRow>, ups: seq<real>, downs: nat, raw: seq<Check>, m: string, lo: int, hi: int)
    requires Accounts(rows, ups, downs)
    ensures Accounts(rows + HourRow(raw, m, lo, hi), ups + Ups(raw, m, lo, hi), downs + Downs(raw, m, lo, hi))
  {
    hide Success, Fail, Latencies, Spans, Summarise, Ups, Downs, Uptime;
    var more, r := Ups(raw, m, lo, hi), HourRow(raw, m, lo, hi);
    if r == [] {
      assert rows + r == rows && ups + more == ups;
    } else {
      TotalsAppend(rows, r[0]);
      var ls, l := Latencies(rows), if more == [] then [] else [Summarise(more)];
      if more == [] { NothingSpans(); } else { SummarySpans(more); }
      SpansUnion(ls + l, ls, l, ups + more, ups, more);
    }
  }

  lemma AlignedWindows(w: int, lo: int, hi: int)
    requires w % HOUR == 0 && lo % HOUR == 0 && hi % HOUR == 0
    ensures (lo <= w && w + HOUR <= hi) || w + HOUR <= lo || hi <= w
    ensures lo <= w && w + HOUR <= hi <==> lo <= w < hi
  {
  }

  lemma RowsAtHour(rows: seq<CheckRow>, raw: seq<Check>, m: string, w: int, lo: int, hi: int)
    ensures RowsAt(rows + HourRow(raw, m, w, w + HOUR), lo, hi) ==
            RowsAt(rows, lo, hi) + if lo <= w < hi then HourRow(raw, m, w, w + HOUR) else []
  {
    hide RowsAt, Summarise, Percent, Ups, Downs;
    var r := HourRow(raw, m, w, w + HOUR);
    if r == [] {
      assert rows + r == rows;
    } else {
      RowsAtAppend(rows, r[0], lo, hi);
    }
  }

  /** The rows of a monitor in a window account for its counted results in it. */
  ghost predicate HoursAccounted(rows: seq<CheckRow>, counted: seq<Check>, m: string, lo: int, hi: int) {
    Accounts(RowsAt(rows, lo, hi), Ups(counted, m, lo, hi), Downs(counted, m, lo, hi))
  }

  lemma HourStepAccounts(rows: seq<CheckRow>, counted: seq<Check>, raw: seq<Check>, log: seq<Check>, m: string, w: int,
                         lo: int, hi: int)
    requires HoursAccounted(rows, counted, m, lo, hi)
    requires w % HOUR == 0 && lo % HOUR == 0 && hi % HOUR == 0
    requires SameChecks(raw, log, m, w, w + HOUR)
    ensures HoursAccounted(rows + HourRow(raw, m, w, w + HOUR), counted + Windowed(log, w, w + HOUR), m, lo, hi)
  {
    hide Accounts, RowsAt, Ups, Downs, HourRow, Windowed;
    AlignedWindows(w, lo, hi);
    WindowIn(log, w, w + HOUR, m, lo, hi);
    ChecksConcat(counted, Windowed(log, w, w + HOUR), m, lo, hi);
    RowsAtHour(rows, raw, m, w, lo, hi);
    if lo <= w < hi {
      RowAccounts(RowsAt(rows, lo, hi), Ups(counted, m, lo, hi), Downs(counted, m, lo, hi), raw, m, w, w + HOUR);
    } else {
      assert RowsAt(rows, lo, hi) + [] == RowsAt(rows, lo, hi);
      assert Ups(counted, m, lo, hi) + [] == Ups(counted, m, lo, hi);
    }
  }

  lemma NothingAccounted(m: string, lo: int, hi: int)
    ensures HoursAccounted(Get(CheckRun([]).hourly, m), Counted([]), m, lo, hi)
  {
    NothingSpans();
  }

  lemma KeptAccounts(t: RowTable, cutoff: int, counted: seq<Check>, m: string, lo: int, hi: int)
    requires HoursAccounted(Get(t, m), counted, m, lo, hi) && cutoff <= lo
    ensures HoursAccounted(Get(TableKept(t, cutoff), m), counted, m, lo, hi)
  {
    hide RowsAt, RowsKept, Accounts;
    if m in t { RowsAtKept(t[m], cutoff, lo, hi); }
  }

  /** Over any run, for ninety days, the rows of whole hours account for what the hourly steps counted in them. */
  lemma {:induction false} HoursAccount(es: seq<CheckEvent>, now: int, m: string, lo: int, hi: int)
    requires Clocked(es, now) && lo % HOUR == 0 && hi % HOUR == 0 && now - RETAIN_HOURLY <= lo
    ensures HoursAccounted(Get(CheckRun(es).hourly, m), Counted(es), m, lo, hi)
  {
    hide Clocked, HoursAccounted, Truncate, HourRow, HourlyAggregated, ChecksKept, DailyAggregated, TableKept, Windowed;
    hide SameChecks, Recorded, Arrived, Times, CheckRun, Counted;
    if es == [] {
      NothingAccounted(m, lo, hi);
    } else {
      var n := |es| - 1;
      var es', e := es[..n], es[n];
      assert es == es' + [e];
      Prefixes(es', e, now, lo);
      HoursAccount(es', e.now, m, lo, hi);
      CountedStep(es', e);
      var t := CheckRun(es');
      match e {
        case Result(_, _) => assert Counted(es') + [] == Counted(es');
        case DayStep(_, _, at) =>
          assert Counted(es') + [] == Counted(es');
          KeptAccounts(t.hourly, at - RETAIN_HOURLY, Counted(es'), m, lo, hi);
        case HourStep(at) =>
          var w := Truncate(at, HOUR) - HOUR;
          HourAligned(at);
          ChecksRetained(es', at, m, w, w + HOUR);
          HourlyAt(t.hourly, t.raw, w, w + HOUR, m);
          HourStepAccounts(Get(t.hourly, m), Counted(es'), t.raw, Recorded(es'), m, w, lo, hi);
      }
    }
  }

  // ---------------------------------------------------------------- the daily row

  /** A daily step over `hours` whole hours whose rows are still there. */
  ghost predicate DayReady(es: seq<CheckEvent>, e: CheckEvent, hours: nat) {
    && Clocked(es, e.now) && e.DayStep? && e.dayStart % HOUR == 0 && e.dayEnd == e.dayStart + hours * HOUR
    && e.now - RETAIN_HOURLY <= e.dayStart
  }

  /** The step adds the monitor's row for these results, counted `c` times, and none when there are no results. */
  ghost predicate DayGives(es: seq<CheckEvent>, e: CheckEvent, m: string, ups: seq<real>, downs: nat, c: nat)
    requires e.DayStep?
  {
    var before, after := Get(CheckRun(es).daily, m), Get(CheckRun(es + [e]).daily, m);
    if |ups| + downs == 0 then after == before
    else |after| == |before| + 1 && after[..|before|] == before && DayIs(after[|before|], ups, downs, e.dayStart, c)
  }

  /** Whatever the ticks and however late the results: the daily row is that of the results the hourly steps
      counted. */
  lemma DayCountsAre(es: seq<CheckEvent>, e: CheckEvent, m: string, hours: nat)
    requires DayReady(es, e, hours)
    ensures var d, d', all := e.dayStart, e.dayEnd, Counted(es);
            DayGives(es, e, m, Ups(all, m, d, d'), Downs(all, m, d, d'), 1)
  {
    hide Clocked, Accounts, DayIs, Ups, Downs, RowsAt, DayRow, DailyAggregated, HourlyAggregated, TableKept, CheckRun,
         Counted;
    var d, t, all := e.dayStart, CheckRun(es), Counted(es);
    HourStart(d, hours);
    HoursAccount(es, e.now, m, d, e.dayEnd);
    DayRowIs(RowsAt(Get(t.hourly, m), d, e.dayEnd), Ups(all, m, d, e.dayEnd), Downs(all, m, d, e.dayEnd), d);
    RunLast(es, e);
    DailyAt(t.daily, t.hourly, d, e.dayEnd, m);
  }

  lemma RunLast(es: seq<CheckEvent>, e: CheckEvent)
    ensures CheckRun(es + [e]) == Advance(CheckRun(es), e)
  {
    assert (es + [e])[..|es|] == es;
  }

  lemma HourStart(d: int, i: nat)
    requires d % HOUR == 0
    ensures (d + i * HOUR) % HOUR == 0 && d + (i + 1) * HOUR == d + i * HOUR + HOUR
  {
  }

  // ---------------------------------------------------------------- how often each result is counted

  /** How often the hour of the result recorded by event `i` was aggregated after it. */
  function Later(es: seq<CheckEvent>, i: nat): nat
    requires i < |es| && es[i].Result?
  {
    Times(es[i + 1..], Truncate(es[i].c.at, HOUR))
  }

  predicate SelectsAt(es: seq<CheckEvent>, i: nat, m: string, lo: int, hi: int)
    requires i < |es|
  {
    es[i].Result? && Selects(es[i].c, m, lo, hi)
  }

  function CountOf(checks: seq<Check>, m: string, lo: int, hi: int, st: Status): nat {
    if st == Up then |Ups(checks, m, lo, hi)| else Downs(checks, m, lo, hi)
  }

  /** The sum over the first `k` events of how often a result with that status was counted beyond `b`. */
  function SumBeyond(es: seq<CheckEvent>, m: string, lo: int, hi: int, st: Status, b: nat, k: nat): int
    requires k <= |es|
  {
    if k == 0 then 0
    else
      SumBeyond(es, m, lo, hi, st, b, k - 1)
      + if SelectsAt(es, k - 1, m, lo, hi) && es[k - 1].c.status == st then Later(es, k - 1) - b else 0
  }

  lemma TimesStep(es: seq<CheckEvent>, e: CheckEvent, h: int)
    ensures Times(es + [e], h) == Times(es, h) + if StepOf(e, h) then 1 else 0
  {
    assert (es + [e])[..|es|] == es;
  }

  lemma HourIs(at: int, h: int)
    requires h % HOUR == 0
    ensures Truncate(at, HOUR) == h <==> h <= at < h + HOUR
  {
    assert EPOCH % HOUR == 0;
  }

  /** Each hourly step adds one to every result of its hour recorded before. */
  lemma LaterStep(es: seq<CheckEvent>, e: CheckEvent, i: nat)
    requires i < |es| && es[i].Result?
    ensures (es + [e])[i] == es[i]
    ensures Later(es + [e], i) == Later(es, i) + |CountedBy(e, [es[i].c])|
  {
    hide Times, Truncate, Windowed;
    assert (es + [e])[i + 1..] == es[i + 1..] + [e];
    TimesStep(es[i + 1..], e, Truncate(es[i].c.at, HOUR));
    if e.HourStep? {
      var w := Truncate(e.now, HOUR) - HOUR;
      HourAligned(e.now);
      HourIs(es[i].c.at, w);
      OneWindowed(es[i].c, w, w + HOUR);
    }
  }

  lemma OneWindowed(c: Check, lo: int, hi: int)
    ensures Windowed([c], lo, hi) == if lo <= c.at < hi then [c] else []
  {
  }

  lemma CountOfConcat(a: seq<Check>, b: seq<Check>, m: string, lo: int, hi: int, st: Status)
    ensures CountOf(a + b, m, lo, hi, st) == CountOf(a, m, lo, hi, st) + CountOf(b, m, lo, hi, st)
  {
    hide Ups, Downs;
    ChecksConcat(a, b, m, lo, hi);
  }

  lemma CountOfOne(c: Check, m: string, lo: int, hi: int, st: Status)
    ensures CountOf([c], m, lo, hi, st) == if Selects(c, m, lo, hi) && c.status == st then 1 else 0
    ensures CountOf([], m, lo, hi, st) == 0
  {
    assert [] + [c] == [c];
    ChecksStep([], c, m, lo, hi);
  }

  lemma CountedByStep(e: CheckEvent, log: seq<Check>, c: Check)
    ensures CountedBy(e, log + [c]) == CountedBy(e, log) + CountedBy(e, [c])
    ensures CountedBy(e, [c]) == [c] || CountedBy(e, [c]) == []
  {
    hide Truncate, Windowed;
    if e.HourStep? {
      WindowedStep(log, c, Truncate(e.now, HOUR) - HOUR, Truncate(e.now, HOUR));
      OneWindowed(c, Truncate(e.now, HOUR) - HOUR, Truncate(e.now, HOUR));
    }
  }

  lemma CountedByNone(e: CheckEvent)
    ensures CountedBy(e, []) == []
  {
  }

  lemma RecordedStep(es: seq<CheckEvent>, k: nat)
    requires k < |es|
    ensures Recorded(es[..k + 1]) == if es[k].Result? then Recorded(es[..k]) + [es[k].c] else Recorded(es[..k])
  {
    assert es[..k + 1][..k] == es[..k];
  }

  lemma {:induction false} SumStep(es: seq<CheckEvent>, e: CheckEvent, m: string, lo: int, hi: int, st: Status,
                                   b: nat, k: nat)
    requires k <= |es|
    ensures SumBeyond(es + [e], m, lo, hi, st, b, k) ==
            SumBeyond(es, m, lo, hi, st, b, k) + CountOf(CountedBy(e, Recorded(es[..k])), m, lo, hi, st)
  {
    hide CountedBy, CountOf, Later, Recorded, Selects;
    if k == 0 {
      NothingCounted(es, e, m, lo, hi, st);
    } else {
      SumStep(es, e, m, lo, hi, st, b, k - 1);
      RecordedStep(es, k - 1);
      if es[k - 1].Result? {
        var c, log := es[k - 1].c, Recorded(es[..k - 1]);
        LaterStep(es, e, k - 1);
        CountedByStep(e, log, c);
        CountOfConcat(CountedBy(e, log), CountedBy(e, [c]), m, lo, hi, st);
        CountOfOne(c, m, lo, hi, st);
      }
    }
  }

  lemma NothingCounted(es: seq<CheckEvent>, e: CheckEvent, m: string, lo: int, hi: int, st: Status)
    ensures CountOf(CountedBy(e, Recorded(es[..0])), m, lo, hi, st) == 0
  {
    assert es[..0] == [];
  }

  lemma LastUncounted(es: seq<CheckEvent>, e: CheckEvent)
    requires e.Result?
    ensures (es + [e])[|es|] == e && Later(es + [e], |es|) == 0
  {
    assert (es + [e])[|es| + 1..] == [];
  }

  /** The counted results are `b` times the recorded ones plus what each is counted beyond that; for `b` zero, the
      sum over the results of how often their hour was aggregated after their arrival. */
  lemma {:induction false} SumsAre(es: seq<CheckEvent>, m: string, lo: int, hi: int, st: Status, b: nat)
    ensures CountOf(Counted(es), m, lo, hi, st) ==
            SumBeyond(es, m, lo, hi, st, b, |es|) + b * CountOf(Recorded(es), m, lo, hi, st)
  {
    hide CountedBy, CountOf, Later, Recorded, Counted, Selects;
    if es == [] {
      NothingRecordedYet(m, lo, hi, st);
    } else {
      var n := |es| - 1;
      var es', e := es[..n], es[n];
      assert es == es' + [e];
      SumsAre(es', m, lo, hi, st, b);
      CountedStep(es', e);
      assert es'[..n] == es';
      SumStep(es', e, m, lo, hi, st, b, n);
      CountOfConcat(Counted(es'), CountedBy(e, Recorded(es')), m, lo, hi, st);
      if e.Result? {
        LastUncounted(es', e);
        CountOfConcat(Recorded(es'), [e.c], m, lo, hi, st);
        CountOfOne(e.c, m, lo, hi, st);
        Distributes(b, CountOf(Recorded(es'), m, lo, hi, st), CountOf([e.c], m, lo, hi, st));
      }
    }
  }

  lemma NothingRecordedYet(m: string, lo: int, hi: int, st: Status)
    ensures CountOf(Counted([]), m, lo, hi, st) == 0 && CountOf(Recorded([]), m, lo, hi, st) == 0
  {
  }

  // ---------------------------------------------------------------- when the row is that of the recorded results

  /** The step adds a row with these counts, and none when they are zero. */
  ghost predicate CountsAre(es: seq<CheckEvent>, e: CheckEvent, m: string, success: nat, fail: nat) {
    var before, after := Get(CheckRun(es).daily, m), Get(CheckRun(es + [e]).daily, m);
    if success + fail == 0 then after == before
    else |after| == |before| + 1 && after[|before|].success == success && after[|before|].fail == fail
  }

  /** The day's counts are the recorded ones exactly when results counted again make up for results missed. */
  lemma DayCountsRawIff(es: seq<CheckEvent>, e: CheckEvent, m: string, hours: nat)
    requires DayReady(es, e, hours)
    ensures var d, d', log := e.dayStart, e.dayEnd, Recorded(es);
            CountsAre(es, e, m, |Ups(log, m, d, d')|, Downs(log, m, d, d')) <==>
            SumBeyond(es, m, d, d', Up, 1, |es|) == 0 && SumBeyond(es, m, d, d', Down, 1, |es|) == 0
  {
    hide Ups, Downs, Counted, Recorded, CheckRun, SumBeyond, Clocked;
    SumsAre(es, m, e.dayStart, e.dayEnd, Up, 1);
    SumsAre(es, m, e.dayStart, e.dayEnd, Down, 1);
    DayCountsAre(es, e, m, hours);
  }

  ghost predicate SameExtremes(a: seq<real>, b: seq<real>) {
    a != [] && b != [] ==> Min(a) == Min(b) && Max(a) == Max(b)
  }

  /** The whole row is that of the recorded results exactly when its counts are theirs and so are the extreme
      latencies among the counted ones. */
  lemma DayRowRawIff(es: seq<CheckEvent>, e: CheckEvent, m: string, hours: nat)
    requires DayReady(es, e, hours)
    ensures var d, d', log := e.dayStart, e.dayEnd, Recorded(es);
            DayGives(es, e, m, Ups(log, m, d, d'), Downs(log, m, d, d'), 1) <==>
            && SumBeyond(es, m, d, d', Up, 1, |es|) == 0 && SumBeyond(es, m, d, d', Down, 1, |es|) == 0
            && SameExtremes(Ups(Counted(es), m, d, d'), Ups(log, m, d, d'))
  {
    hide Ups, Downs, Counted, Recorded, CheckRun, SumBeyond, Clocked, Min, Max, Uptime;
    SumsAre(es, m, e.dayStart, e.dayEnd, Up, 1);
    SumsAre(es, m, e.dayStart, e.dayEnd, Down, 1);
    DayCountsAre(es, e, m, hours);
  }

  /** Each of the first `k` results, of those in the window, was counted exactly once. */
  ghost predicate EachOnce(es: seq<CheckEvent>, m: string, lo: int, hi: int, k: nat)
    requires k <= |es|
  {
    forall i | 0 <= i < k && SelectsAt(es, i, m, lo, hi) :: Later(es, i) == 1
  }

  ghost predicate NoneMissed(es: seq<CheckEvent>, m: string, lo: int, hi: int, k: nat)
    requires k <= |es|
  {
    forall i | 0 <= i < k && SelectsAt(es, i, m, lo, hi) :: Later(es, i) >= 1
  }

  ghost predicate NoneAgain(es: seq<CheckEvent>, m: string, lo: int, hi: int, k: nat)
    requires k <= |es|
  {
    forall i | 0 <= i < k && SelectsAt(es, i, m, lo, hi) :: Later(es, i) <= 1
  }

  /** When results are only missed, or only counted again, one that is makes the sums differ. */
  lemma {:induction false} SumsZeroIff(es: seq<CheckEvent>, m: string, lo: int, hi: int, k: nat, again: bool)
    requires k <= |es| && if again then NoneMissed(es, m, lo, hi, k) else NoneAgain(es, m, lo, hi, k)
    ensures var u, f := SumBeyond(es, m, lo, hi, Up, 1, k), SumBeyond(es, m, lo, hi, Down, 1, k);
            && (if again then u >= 0 && f >= 0 else u <= 0 && f <= 0)
            && (u == 0 && f == 0 <==> EachOnce(es, m, lo, hi, k))
  {
    hide Later, Selects;
    if k > 0 {
      SumsZeroIff(es, m, lo, hi, k - 1, again);
      assert EachOnce(es, m, lo, hi, k) <==>
             EachOnce(es, m, lo, hi, k - 1) && (SelectsAt(es, k - 1, m, lo, hi) ==> Later(es, k - 1) == 1);
    }
  }

  /** The result `c` was recorded by event `i` and its hour aggregated later. */
  ghost predicate CountedAt(es: seq<CheckEvent>, c: Check, i: nat) {
    i < |es| && es[i].Result? && es[i].c == c && Later(es, i) > 0
  }

  ghost predicate RecordedAt(es: seq<CheckEvent>, c: Check, i: nat) {
    i < |es| && es[i].Result? && es[i].c == c
  }

  lemma {:induction false} RecordedIff(es: seq<CheckEvent>, c: Check)
    ensures c in Recorded(es) <==> exists i: nat :: RecordedAt(es, c, i)
  {
    if es != [] {
      var n := |es| - 1;
      RecordedIff(es[..n], c);
      if RecordedAt(es, c, n) {
      } else if c in Recorded(es) {
        var i: nat :| RecordedAt(es[..n], c, i);
        assert RecordedAt(es, c, i);
      } else {
        forall i: nat ensures !RecordedAt(es, c, i) {
          assert !RecordedAt(es[..n], c, i);
        }
      }
    }
  }

  lemma {:induction false} CountedByMember(e: CheckEvent, log: seq<Check>, c: Check)
    ensures c in CountedBy(e, log) <==> c in log && CountedBy(e, [c]) != []
  {
    hide CountedBy;
    if log == [] {
      CountedByNone(e);
    } else {
      var n := |log| - 1;
      assert log == log[..n] + [log[n]];
      CountedByMember(e, log[..n], c);
      CountedByStep(e, log[..n], log[n]);
    }
  }

  /** A result is counted iff its hour was aggregated after some recording of it. */
  lemma {:induction false} CountedIff(es: seq<CheckEvent>, c: Check)
    ensures c in Counted(es) <==> exists i: nat :: CountedAt(es, c, i)
  {
    hide CountedBy, Later, Recorded;
    if es != [] {
      var n := |es| - 1;
      var es', e := es[..n], es[n];
      assert es == es' + [e];
      CountedIff(es', c);
      CountedIffStep(es', e, c);
    }
  }

  lemma CountedIffStep(es: seq<CheckEvent>, e: CheckEvent, c: Check)
    requires c in Counted(es) <==> exists i: nat :: CountedAt(es, c, i)
    ensures c in Counted(es + [e]) <==> exists i: nat :: CountedAt(es + [e], c, i)
  {
    hide CountedBy, Later, Recorded, Counted;
    CountedStep(es, e);
    RecordedIff(es, c);
    CountedByMember(e, Recorded(es), c);
    if c in Counted(es) {
      var i: nat :| CountedAt(es, c, i);
      LaterStep(es, e, i);
      assert CountedAt(es + [e], c, i);
    } else if c in CountedBy(e, Recorded(es)) {
      var i: nat :| RecordedAt(es, c, i);
      LaterStep(es, e, i);
      assert CountedAt(es + [e], c, i);
    } else {
      forall i: nat ensures !CountedAt(es + [e], c, i) {
        UncountedStays(es, e, c, i);
      }
    }
  }

  lemma UncountedStays(es: seq<CheckEvent>, e: CheckEvent, c: Check, i: nat)
    requires !CountedAt(es, c, i) && (RecordedAt(es, c, i) ==> CountedBy(e, [c]) == [])
    ensures !CountedAt(es + [e], c, i)
  {
    hide CountedBy, Later;
    if i < |es| && es[i].Result? {
      LaterStep(es, e, i);
    } else if i == |es| && e.Result? {
      LastUncounted(es, e);
    }
  }

  lemma Positive(c: nat, x: nat, y: nat)
    requires c > 0
    ensures c * x + c * y == 0 <==> x + y == 0
  {
    Distributes(c, x, y);
  }

  lemma MembersBound(a: seq<real>, b: seq<real>)
    requires a != [] && forall v :: v in a <==> v in b
    ensures b != [] && Min(a) == Min(b) && Max(a) == Max(b)
  {
    assert a[0] in a;
    assert Min(a) in b && Min(b) in a && Max(a) in b && Max(b) in a;
  }

  lemma DayIsScaled(row: CheckRow, ups': seq<real>, downs': nat, ups: seq<real>, downs: nat, d: int, c: nat)
    requires c > 0 && |ups'| == c * |ups| && downs' == c * downs && forall v :: v in ups' <==> v in ups
    requires |ups| + downs > 0 && DayIs(row, ups', downs', d, 1)
    ensures DayIs(row, ups, downs, d, c)
  {
    hide Min, Max, Uptime;
    UptimeScaled(row.uptime, c, |ups|, downs);
    if ups != [] {
      assert ups[0] in ups;
      MembersBound(ups', ups);
    }
  }

  lemma GivesScaled(es: seq<CheckEvent>, e: CheckEvent, m: string, ups': seq<real>, downs': nat, ups: seq<real>,
                    downs: nat, c: nat)
    requires c > 0 && |ups'| == c * |ups| && downs' == c * downs && forall v :: v in ups' <==> v in ups
    requires e.DayStep? && DayGives(es, e, m, ups', downs', 1)
    ensures DayGives(es, e, m, ups, downs, c)
  {
    hide DayIs, CheckRun;
    Positive(c, |ups|, downs);
    if |ups| + downs > 0 {
      var n := |Get(CheckRun(es).daily, m)|;
      DayIsScaled(Get(CheckRun(es + [e]).daily, m)[n], ups', downs', ups, downs, e.dayStart, c);
    }
  }

  /** Two tables hold a monitor's results in a window in the proportion `c` to 1. */
  ghost predicate Multiplied(counted: seq<Check>, log: seq<Check>, m: string, lo: int, hi: int, c: nat) {
    && |Ups(counted, m, lo, hi)| == c * |Ups(log, m, lo, hi)|
    && Downs(counted, m, lo, hi) == c * Downs(log, m, lo, hi)
    && (c > 0 ==> forall v :: v in Ups(counted, m, lo, hi) <==> v in Ups(log, m, lo, hi))
  }

  lemma OnceIsSame(es: seq<CheckEvent>, m: string, lo: int, hi: int)
    requires EachOnce(es, m, lo, hi, |es|)
    ensures Multiplied(Counted(es), Recorded(es), m, lo, hi, 1)
  {
    hide Ups, Downs, Counted, Recorded, Later, SumBeyond;
    SumsAre(es, m, lo, hi, Up, 1);
    SumsAre(es, m, lo, hi, Down, 1);
    SumsZeroIff(es, m, lo, hi, |es|, true);
    forall v ensures v in Ups(Counted(es), m, lo, hi) <==> v in Ups(Recorded(es), m, lo, hi) {
      UpsMember(Counted(es), m, lo, hi, v);
      UpsMember(Recorded(es), m, lo, hi, v);
      forall c | Selects(c, m, lo, hi) ensures c in Counted(es) <==> c in Recorded(es) {
        OnceCounted(es, m, lo, hi, c);
      }
    }
  }

  lemma OnceCounted(es: seq<CheckEvent>, m: string, lo: int, hi: int, c: Check)
    requires EachOnce(es, m, lo, hi, |es|) && Selects(c, m, lo, hi)
    ensures c in Counted(es) <==> c in Recorded(es)
  {
    hide Counted, Recorded, Later, Selects;
    RecordedIff(es, c);
    CountedIff(es, c);
    if c in Recorded(es) {
      var i: nat :| RecordedAt(es, c, i);
      assert SelectsAt(es, i, m, lo, hi);
      assert CountedAt(es, c, i);
    } else {
      forall i: nat ensures !CountedAt(es, c, i) {
        assert !RecordedAt(es, c, i);
      }
    }
  }

  /** Unless some results were missed and others counted again, the daily row is that of the recorded results exactly
      when each of them was counted once. */
  lemma DayIsRawIff(es: seq<CheckEvent>, e: CheckEvent, m: string, hours: nat)
    requires DayReady(es, e, hours)
    requires NoneMissed(es, m, e.dayStart, e.dayEnd, |es|) || NoneAgain(es, m, e.dayStart, e.dayEnd, |es|)
    ensures var d, d', log := e.dayStart, e.dayEnd, Recorded(es);
            DayGives(es, e, m, Ups(log, m, d, d'), Downs(log, m, d, d'), 1) <==> EachOnce(es, m, d, d', |es|)
  {
    hide Ups, Downs, Counted, Recorded, CheckRun, SumBeyond, Clocked, NoneMissed, NoneAgain, EachOnce;
    var d, d', log := e.dayStart, e.dayEnd, Recorded(es);
    DayCountsRawIff(es, e, m, hours);
    SumsZeroIff(es, m, d, d', |es|, NoneMissed(es, m, d, d', |es|));
    if EachOnce(es, m, d, d', |es|) {
      DayCountsAre(es, e, m, hours);
      OnceIsSame(es, m, d, d');
      GivesScaled(es, e, m, Ups(Counted(es), m, d, d'), Downs(Counted(es), m, d, d'),
                  Ups(log, m, d, d'), Downs(log, m, d, d'), 1);
    }
  }
}
