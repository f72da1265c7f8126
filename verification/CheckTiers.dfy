/** Check results aggregated raw -> hour -> day. The aggregate tables have no unique key, so every
    statement appends. Latencies are reals and the uptime percentage is taken before `ROUND`. */
module CheckTiers {
  import opened Sequences
  import opened MetricTiers
  import opened Options

  const RETAIN_CHECKS := 12 * HOUR

  datatype Status = Up | Down

  datatype Check = Check(monitor: string, at: int, status: Status, latency: real)

  /** `latency` is NULL when nothing was up, `uptime` when the divisor is zero. */
  datatype CheckRow = CheckRow(at: int, latency: Option<Summary>, success: nat, fail: nat, uptime: Option<real>)

  /** The rows of an aggregate table by monitor, in insertion order. */
  type RowTable = map<string, seq<CheckRow>>

  function Get(t: RowTable, m: string): seq<CheckRow> { if m in t then t[m] else [] }

  predicate Selects(c: Check, m: string, lo: int, hi: int) { c.monitor == m && lo <= c.at < hi }

  /** The latencies of a monitor's up results with `lo <= timestamp < hi`. */
  function Ups(checks: seq<Check>, m: string, lo: int, hi: int): seq<real> {
    if checks == [] then []
    else
      var n := |checks| - 1;
      var rest := Ups(checks[..n], m, lo, hi);
      if Selects(checks[n], m, lo, hi) && checks[n].status == Up then rest + [checks[n].latency] else rest
  }

  function Downs(checks: seq<Check>, m: string, lo: int, hi: int): nat {
    if checks == [] then 0
    else
      var n := |checks| - 1;
      Downs(checks[..n], m, lo, hi) + if Selects(checks[n], m, lo, hi) && checks[n].status == Down then 1 else 0
  }

  /** The uptime column says which share of the results was up; it is NULL when there are none. */
  ghost predicate Uptime(u: Option<real>, up: nat, down: nat) {
    if up + down == 0 then u.None? else u.Some? && u.value * ((up + down) as real) == 100.0 * (up as real)
  }

  function Percent(part: nat, whole: nat): (u: Option<real>)
    ensures whole == 0 <==> u.None?
    ensures u.Some? ==> u.value * (whole as real) == 100.0 * (part as real)
  {
    if whole == 0 then None else Some(100.0 * (part as real) / (whole as real))
  }

  /** The hourly statement's row for one monitor; no row when the group is empty. */
  function HourRow(checks: seq<Check>, m: string, lo: int, hi: int): seq<CheckRow> {
    var ups, downs := Ups(checks, m, lo, hi), Downs(checks, m, lo, hi);
    if |ups| + downs == 0 then []
    else [CheckRow(lo, if ups == [] then None else Some(Summarise(ups)), |ups|, downs, Percent(|ups|, |ups| + downs))]
  }

  function Monitors(checks: seq<Check>): set<string> { set c | c in checks :: c.monitor }

  function HourlyAggregated(t: RowTable, checks: seq<Check>, lo: int, hi: int): RowTable {
    map m | m in t.Keys + Monitors(checks) :: Get(t, m) + HourRow(checks, m, lo, hi)
  }

  function RowsAt(rows: seq<CheckRow>, lo: int, hi: int): seq<CheckRow> {
    if rows == [] then []
    else
      var n := |rows| - 1;
      var rest := RowsAt(rows[..n], lo, hi);
      if lo <= rows[n].at < hi then rest + [rows[n]] else rest
  }

  function Success(rows: seq<CheckRow>): nat {
    if rows == [] then 0 else Success(rows[..|rows| - 1]) + rows[|rows| - 1].success
  }

  function Fail(rows: seq<CheckRow>): nat {
    if rows == [] then 0 else Fail(rows[..|rows| - 1]) + rows[|rows| - 1].fail
  }

  /** The latency columns that are not NULL. */
  function Latencies(rows: seq<CheckRow>): seq<Summary> {
    if rows == [] then []
    else
      var n := |rows| - 1;
      var rest := Latencies(rows[..n]);
      if rows[n].latency.Some? then rest + [rows[n].latency.value] else rest
  }

  /** The daily statement's row for one monitor. */
  function DayRow(rows: seq<CheckRow>, lo: int): seq<CheckRow> {
    if rows == [] then []
    else
      var ls, s, f := Latencies(rows), Success(rows), Fail(rows);
      [CheckRow(lo, if ls == [] then None else Some(Combine(ls)), s, f, Percent(s, s + f))]
  }

  function DailyAggregated(t: RowTable, hourly: RowTable, lo: int, hi: int): RowTable {
    map m | m in t.Keys + hourly.Keys :: Get(t, m) + DayRow(RowsAt(Get(hourly, m), lo, hi), lo)
  }

  function ChecksKept(checks: seq<Check>, cutoff: int): seq<Check> {
    if checks == [] then []
    else
      var n := |checks| - 1;
      if checks[n].at < cutoff then ChecksKept(checks[..n], cutoff) else ChecksKept(checks[..n], cutoff) + [checks[n]]
  }

  function RowsKept(rows: seq<CheckRow>, cutoff: int): seq<CheckRow> {
    if rows == [] then []
    else
      var n := |rows| - 1;
      if rows[n].at < cutoff then RowsKept(rows[..n], cutoff) else RowsKept(rows[..n], cutoff) + [rows[n]]
  }

  lemma {:induction false} ChecksKeptFilters(checks: seq<Check>, cutoff: int)
    ensures Filtered(ChecksKept(checks, cutoff), checks, (c: Check) => c.at >= cutoff)
  {
    hide Filtered;
    if checks == [] {
      FilteredNothing((c: Check) => c.at >= cutoff);
    } else {
      var n := |checks| - 1;
      ChecksKeptFilters(checks[..n], cutoff);
      FilteredStep(ChecksKept(checks[..n], cutoff), checks[..n], checks[n], (c: Check) => c.at >= cutoff);
      assert checks == checks[..n] + [checks[n]];
    }
  }

  lemma {:induction false} RowsKeptFilters(rows: seq<CheckRow>, cutoff: int)
    ensures Filtered(RowsKept(rows, cutoff), rows, (r: CheckRow) => r.at >= cutoff)
  {
    hide Filtered;
    if rows == [] {
      FilteredNothing((r: CheckRow) => r.at >= cutoff);
    } else {
      var n := |rows| - 1;
      RowsKeptFilters(rows[..n], cutoff);
      FilteredStep(RowsKept(rows[..n], cutoff), rows[..n], rows[n], (r: CheckRow) => r.at >= cutoff);
      assert rows == rows[..n] + [rows[n]];
    }
  }

  function TableKept(t: RowTable, cutoff: int): RowTable { map m | m in t :: RowsKept(t[m], cutoff) }

  datatype State = State(raw: seq<Check>, hourly: RowTable, daily: RowTable)

  datatype CheckEvent =
    | Result(c: Check, now: int)
    | HourStep(now: int)
    | DayStep(dayStart: int, dayEnd: int, now: int)

  function Advance(t: State, e: CheckEvent): State {
    match e
    case Result(c, _) => t.(raw := t.raw + [c])
    case HourStep(now) =>
      var end := Truncate(now, HOUR);
      t.(hourly := HourlyAggregated(t.hourly, t.raw, end - HOUR, end), raw := ChecksKept(t.raw, now - RETAIN_CHECKS))
    case DayStep(dayStart, dayEnd, now) =>
      t.(daily := DailyAggregated(t.daily, t.hourly, dayStart, dayEnd),
          hourly := TableKept(t.hourly, now - RETAIN_HOURLY))
  }

  function CheckRun(es: seq<CheckEvent>): State {
    if es == [] then State([], map[], map[]) else Advance(CheckRun(es[..|es| - 1]), es[|es| - 1])
  }

  // ---------------------------------------------------------------- what the columns mean

  /** The results of a monitor in a window, by status. */
  ghost function At(checks: seq<Check>, m: string, lo: int, hi: int, st: Status): set<nat> {
    set i: nat | i < |checks| && checks[i].monitor == m && lo <= checks[i].at < hi && checks[i].status == st
  }

  lemma AtStep(checks: seq<Check>, m: string, lo: int, hi: int, st: Status)
    requires checks != []
    ensures var n := |checks| - 1; var c := checks[n];
            At(checks, m, lo, hi, st) ==
            At(checks[..n], m, lo, hi, st) + if c.monitor == m && lo <= c.at < hi && c.status == st then {n} else {}
  {
    var n := |checks| - 1;
    assert forall i | 0 <= i < n :: checks[..n][i] == checks[i];
  }

  lemma {:induction false} UpsAre(checks: seq<Check>, m: string, lo: int, hi: int)
    ensures |Ups(checks, m, lo, hi)| == |At(checks, m, lo, hi, Up)|
    ensures Downs(checks, m, lo, hi) == |At(checks, m, lo, hi, Down)|
  {
    hide At;
    if checks == [] {
      NothingAt(m, lo, hi);
    } else {
      var n := |checks| - 1;
      UpsAre(checks[..n], m, lo, hi);
      AtStep(checks, m, lo, hi, Up);
      AtStep(checks, m, lo, hi, Down);
      AtBelow(checks[..n], m, lo, hi);
    }
  }

  lemma NothingAt(m: string, lo: int, hi: int)
    ensures forall st :: At([], m, lo, hi, st) == {}
  {
  }

  lemma AtBelow(checks: seq<Check>, m: string, lo: int, hi: int)
    ensures forall st :: |checks| !in At(checks, m, lo, hi, st)
  {
  }

  lemma {:induction false} UpsMember(checks: seq<Check>, m: string, lo: int, hi: int, v: real)
    ensures v in Ups(checks, m, lo, hi) <==>
            exists c :: c in checks && c.monitor == m && lo <= c.at < hi && c.status == Up && c.latency == v
  {
    if checks != [] {
      var n := |checks| - 1;
      UpsMember(checks[..n], m, lo, hi, v);
      assert checks == checks[..n] + [checks[n]];
    }
  }

  /** `AVG`, `MIN` and `MAX` of some values. */
  ghost predicate Describes(l: Summary, vs: seq<real>) {
    && l.avg * (|vs| as real) == Sum(vs)
    && l.min in vs && l.max in vs && forall v | v in vs :: l.min <= v <= l.max
  }

  lemma SummaryDescribes(vs: seq<real>)
    requires vs != []
    ensures Describes(Summarise(vs), vs)
  {
    hide Sum, Mean, Min, Max;
    MeanIs(vs);
  }

  ghost predicate HourColumns(row: CheckRow, checks: seq<Check>, m: string, lo: int, hi: int) {
    var ups, downs := At(checks, m, lo, hi, Up), At(checks, m, lo, hi, Down);
    && row.at == lo && row.success == |ups| && row.fail == |downs| && Uptime(row.uptime, |ups|, |downs|)
    && (row.latency.None? <==> ups == {})
    && (row.latency.Some? ==> Describes(row.latency.value, Ups(checks, m, lo, hi)))
  }

  ghost predicate HourAdded(before: seq<CheckRow>, after: seq<CheckRow>, checks: seq<Check>, m: string, lo: int,
                            hi: int) {
    if At(checks, m, lo, hi, Up) == {} && At(checks, m, lo, hi, Down) == {} then after == before
    else |after| == |before| + 1 && after[..|before|] == before && HourColumns(after[|before|], checks, m, lo, hi)
  }

  lemma PercentIsUptime(ups: seq<real>, downs: nat)
    ensures Uptime(Percent(|ups|, |ups| + downs), |ups|, downs)
  {
  }

  lemma HourRowColumns(before: seq<CheckRow>, checks: seq<Check>, m: string, lo: int, hi: int)
    ensures HourAdded(before, before + HourRow(checks, m, lo, hi), checks, m, lo, hi)
  {
    hide Ups, Downs, At, Summarise, Describes, Percent, Uptime;
    PercentIsUptime(Ups(checks, m, lo, hi), Downs(checks, m, lo, hi));
    UpsAre(checks, m, lo, hi);
    if Ups(checks, m, lo, hi) != [] { SummaryDescribes(Ups(checks, m, lo, hi)); }
  }

  /** The daily columns: sums, the share of the sums, and `AVG(avg)`, `MIN(min)` and `MAX(max)` where not NULL. */
  ghost predicate DayColumns(row: CheckRow, rows: seq<CheckRow>, lo: int) {
    var ls := Latencies(rows);
    && row.at == lo && row.success == Success(rows) && row.fail == Fail(rows)
    && Uptime(row.uptime, Success(rows), Fail(rows))
    && (row.latency.None? <==> ls == [])
    && (row.latency.Some? ==>
          var l := row.latency.value;
          && l.avg * (|ls| as real) == Sum(Avgs(ls))
          && l.min in Mins(ls) && l.max in Maxs(ls) && forall k | k in ls :: l.min <= k.min && k.max <= l.max)
  }

  ghost predicate DayAdded(before: seq<CheckRow>, after: seq<CheckRow>, hourly: seq<CheckRow>, lo: int, hi: int) {
    if forall r | r in hourly :: !(lo <= r.at < hi) then after == before
    else
      |after| == |before| + 1 && after[..|before|] == before && DayColumns(after[|before|], RowsAt(hourly, lo, hi), lo)
  }

  lemma {:induction false} RowsAtNone(rows: seq<CheckRow>, lo: int, hi: int)
    ensures RowsAt(rows, lo, hi) == [] <==> forall r | r in rows :: !(lo <= r.at < hi)
  {
    if rows != [] {
      var n := |rows| - 1;
      RowsAtNone(rows[..n], lo, hi);
      assert rows == rows[..n] + [rows[n]];
    }
  }

  lemma CombineDescribes(ls: seq<Summary>)
    requires ls != []
    ensures var l := Combine(ls);
            && l.avg * (|ls| as real) == Sum(Avgs(ls))
            && l.min in Mins(ls) && l.max in Maxs(ls) && forall k | k in ls :: l.min <= k.min && k.max <= l.max
  {
    hide Sum, Mean, Min, Max;
    MeanIs(Avgs(ls));
    forall k | k in ls ensures Combine(ls).min <= k.min && k.max <= Combine(ls).max {
      var i :| 0 <= i < |ls| && ls[i] == k;
      assert Mins(ls)[i] == k.min && Maxs(ls)[i] == k.max;
    }
  }

  lemma MeanIs(vs: seq<real>)
    requires vs != []
    ensures Mean(vs) * (|vs| as real) == Sum(vs)
  {
    hide Sum;
  }

  lemma DayRowColumns(before: seq<CheckRow>, hourly: seq<CheckRow>, lo: int, hi: int)
    ensures DayAdded(before, before + DayRow(RowsAt(hourly, lo, hi), lo), hourly, lo, hi)
  {
    hide RowsAt, Success, Fail, Latencies, Combine;
    RowsAtNone(hourly, lo, hi);
    if Latencies(RowsAt(hourly, lo, hi)) != [] { CombineDescribes(Latencies(RowsAt(hourly, lo, hi))); }
  }

  // ---------------------------------------------------------------- the statements, row by row

  /** The hourly row of one monitor, if it has results in the window. */
  method HourlyRow(checks: seq<Check>, m: string, lo: int, hi: int) returns (added: seq<CheckRow>)
    ensures added == HourRow(checks, m, lo, hi)
  {
    hide Summarise;
    var ups: seq<real>, downs: nat := [], 0;
    for i := 0 to |checks|
      invariant ups == Ups(checks[..i], m, lo, hi) && downs == Downs(checks[..i], m, lo, hi)
    {
      assert checks[..i + 1][..i] == checks[..i];
      if Selects(checks[i], m, lo, hi) {
        match checks[i].status
        case Up => ups := ups + [checks[i].latency];
        case Down => downs := downs + 1;
      }
    }
    assert checks[..|checks|] == checks;
    if |ups| + downs == 0 { return []; }
    var latency: Option<Summary> := None;
    if ups != [] {
      var l := Aggregates(ups);
      latency := Some(l);
    }
    return [CheckRow(lo, latency, |ups|, downs, Percent(|ups|, |ups| + downs))];
  }

  /** `SUM` and the latency columns over the rows of a window. */
  method Totals(rows: seq<CheckRow>, lo: int, hi: int)
    returns (selected: seq<CheckRow>, ls: seq<Summary>, s: nat, f: nat)
    ensures selected == RowsAt(rows, lo, hi)
    ensures ls == Latencies(selected) && s == Success(selected) && f == Fail(selected)
  {
    selected, ls, s, f := [], [], 0, 0;
    for i := 0 to |rows|
      invariant selected == RowsAt(rows[..i], lo, hi)
      invariant ls == Latencies(selected) && s == Success(selected) && f == Fail(selected)
    {
      assert rows[..i + 1][..i] == rows[..i];
      if lo <= rows[i].at < hi {
        assert (selected + [rows[i]])[..|selected|] == selected;
        selected := selected + [rows[i]];
        if rows[i].latency.Some? { ls := ls + [rows[i].latency.value]; }
        s := s + rows[i].success;
        f := f + rows[i].fail;
      }
    }
    assert rows[..|rows|] == rows;
  }

  /** The daily row of one monitor, if it has hourly rows in the window. */
  method DailyRow(rows: seq<CheckRow>, lo: int, hi: int) returns (added: seq<CheckRow>)
    ensures added == DayRow(RowsAt(rows, lo, hi), lo)
  {
    hide RowsAt, Latencies, Success, Fail, Combine;
    var selected, ls, s, f := Totals(rows, lo, hi);
    if selected == [] { return []; }
    var latency: Option<Summary> := None;
    if ls != [] {
      var l := CombineRows(ls);
      latency := Some(l);
    }
    return [CheckRow(lo, latency, s, f, Percent(s, s + f))];
  }

  method DeleteOldRows(rows: seq<CheckRow>, cutoff: int) returns (kept: seq<CheckRow>)
    ensures kept == RowsKept(rows, cutoff)
  {
    kept := [];
    for i := 0 to |rows|
      invariant kept == RowsKept(rows[..i], cutoff)
    {
      assert rows[..i + 1][..i] == rows[..i];
      if !(rows[i].at < cutoff) { kept := kept + [rows[i]]; }
    }
    assert rows[..|rows|] == rows;
  }

  class CheckStore {
    var raw: seq<Check>
    var hourly: RowTable
    var daily: RowTable

    ghost function View(): State
      reads this
    {
      State(raw, hourly, daily)
    }

    constructor ()
      ensures View() == CheckRun([])
    {
      raw, hourly, daily := [], map[], map[];
    }

    method InsertCheckResult(c: Check, now: int)
      modifies this`raw
      ensures View() == Advance(old(View()), Result(c, now))
    {
      raw := raw + [c];
    }

    method DeleteOldCheckResults(cutoff: int) returns (deleted: nat)
      modifies this`raw
      ensures raw == ChecksKept(old(raw), cutoff) && deleted == |old(raw)| - |raw|
      ensures Filtered(raw, old(raw), (c: Check) => c.at >= cutoff)
    {
      hide Filtered;
      ChecksKeptFilters(raw, cutoff);
      var kept: seq<Check> := [];
      deleted := 0;
      for i := 0 to |raw|
        invariant raw == old(raw) && kept == ChecksKept(raw[..i], cutoff) && deleted == i - |kept|
      {
        assert raw[..i + 1][..i] == raw[..i];
        if raw[i].at < cutoff { deleted := deleted + 1; } else { kept := kept + [raw[i]]; }
      }
      assert raw[..|raw|] == raw;
      raw := kept;
    }

    method AggregateCheckResultsHourly(hourStart: int, hourEnd: int)
      modifies this`hourly
      ensures hourly == HourlyAggregated(old(hourly), raw, hourStart, hourEnd)
    {
      hide HourRow;
      var todo := Monitors(raw);
      ghost var done: set<string> := {};
      while todo != {}
        invariant todo + done == Monitors(raw) && todo !! done
        invariant hourly.Keys == old(hourly).Keys + done
        invariant forall m | m in done :: hourly[m] == Get(old(hourly), m) + HourRow(raw, m, hourStart, hourEnd)
        invariant forall m | m in old(hourly) && m !in done :: hourly[m] == old(hourly)[m]
      {
        assert (forall m :: m !in todo) ==> todo == {};
        var m :| m in todo;
        var added := HourlyRow(raw, m, hourStart, hourEnd);
        hourly := hourly[m := Get(hourly, m) + added];
        todo, done := todo - {m}, done + {m};
      }
      StrangersHaveNoRow(old(hourly), raw, hourStart, hourEnd);
    }

    /** The check-result half of `runHourlyAggregation`: each monitor gets at most one row, older results go. */
    method RunHourly(now: int)
      modifies this
      ensures var hourEnd := Truncate(now, HOUR);
              forall m :: HourAdded(Get(old(hourly), m), Get(hourly, m), old(raw), m, hourEnd - HOUR, hourEnd)
      ensures Filtered(raw, old(raw), (c: Check) => c.at >= now - 12 * HOUR) && daily == old(daily)
      ensures View() == Advance(old(View()), HourStep(now))
    {
      hide HourlyAggregated, HourRow, HourAdded, ChecksKept, Filtered, Truncate, Get;
      var hourEnd := Truncate(now, HOUR);
      var hourStart := hourEnd - HOUR;
      AggregateCheckResultsHourly(hourStart, hourEnd);
      var _ := DeleteOldCheckResults(now - RETAIN_CHECKS);
      forall m ensures HourAdded(Get(old(hourly), m), Get(hourly, m), old(raw), m, hourStart, hourEnd) {
        HourRowColumns(Get(old(hourly), m), old(raw), m, hourStart, hourEnd);
        HourlyAt(old(hourly), old(raw), hourStart, hourEnd, m);
      }
    }

    method AggregateCheckResultsDaily(dayStart: int, dayEnd: int)
      modifies this`daily
      ensures daily == DailyAggregated(old(daily), hourly, dayStart, dayEnd)
    {
      hide DayRow, RowsAt;
      var todo := hourly.Keys;
      ghost var done: set<string> := {};
      while todo != {}
        invariant todo + done == hourly.Keys && todo !! done
        invariant daily.Keys == old(daily).Keys + done
        invariant forall m | m in done ::
                    daily[m] == Get(old(daily), m) + DayRow(RowsAt(Get(hourly, m), dayStart, dayEnd), dayStart)
        invariant forall m | m in old(daily) && m !in done :: daily[m] == old(daily)[m]
      {
        assert (forall m :: m !in todo) ==> todo == {};
        var m :| m in todo;
        var added := DailyRow(hourly[m], dayStart, dayEnd);
        daily := daily[m := Get(daily, m) + added];
        todo, done := todo - {m}, done + {m};
      }
      NoHourlyRows(old(daily), hourly, dayStart, dayEnd);
    }

    method DeleteOldHourlyCheckResults(cutoff: int)
      modifies this`hourly
      ensures hourly == TableKept(old(hourly), cutoff)
    {
      hide RowsKept;
      var todo := hourly.Keys;
      while todo != {}
        invariant todo <= hourly.Keys && hourly.Keys == old(hourly).Keys
        invariant forall m | m in hourly ::
                    hourly[m] == if m in todo then old(hourly)[m] else RowsKept(old(hourly)[m], cutoff)
      {
        assert (forall m :: m !in todo) ==> todo == {};
        var m :| m in todo;
        var kept := DeleteOldRows(hourly[m], cutoff);
        hourly := hourly[m := kept];
        todo := todo - {m};
      }
    }

    /** The check-result half of `runDailyAggregation`: each monitor gets at most one row, older hours go. */
    method RunDaily(dayStart: int, dayEnd: int, now: int)
      modifies this
      ensures forall m :: DayAdded(Get(old(daily), m), Get(daily, m), Get(old(hourly), m), dayStart, dayEnd)
      ensures forall m :: Filtered(Get(hourly, m), Get(old(hourly), m), (r: CheckRow) => r.at >= now - 90 * 24 * HOUR)
      ensures raw == old(raw)
      ensures View() == Advance(old(View()), DayStep(dayStart, dayEnd, now))
    {
      hide DayRow, DayAdded, RowsAt, RowsKept, Filtered, Get, DailyAggregated, TableKept;
      AggregateCheckResultsDaily(dayStart, dayEnd);
      DeleteOldHourlyCheckResults(now - RETAIN_HOURLY);
      forall m ensures DayAdded(Get(old(daily), m), Get(daily, m), Get(old(hourly), m), dayStart, dayEnd) {
        DailyAt(old(daily), old(hourly), dayStart, dayEnd, m);
        DayRowColumns(Get(old(daily), m), Get(old(hourly), m), dayStart, dayEnd);
      }
      forall m
        ensures Filtered(Get(hourly, m), Get(old(hourly), m), (r: CheckRow) => r.at >= now - 90 * 24 * HOUR)
      {
        KeptAt(old(hourly), now - RETAIN_HOURLY, m);
        RowsKeptFilters(Get(old(hourly), m), now - RETAIN_HOURLY);
      }
    }
  }

  lemma {:induction false} StrangerHasNone(checks: seq<Check>, m: string, lo: int, hi: int)
    requires forall c | c in checks :: c.monitor != m
    ensures Ups(checks, m, lo, hi) == [] && Downs(checks, m, lo, hi) == 0
  {
    if checks != [] {
      assert checks[|checks| - 1] in checks;
      StrangerHasNone(checks[..|checks| - 1], m, lo, hi);
    }
  }

  lemma HourlyAt(t: RowTable, checks: seq<Check>, lo: int, hi: int, m: string)
    ensures Get(HourlyAggregated(t, checks, lo, hi), m) == Get(t, m) + HourRow(checks, m, lo, hi)
  {
    hide HourRow;
    if m !in Monitors(checks) {
      StrangerHasNone(checks, m, lo, hi);
      EmptyHour(checks, m, lo, hi);
    }
  }

  lemma EmptyHour(checks: seq<Check>, m: string, lo: int, hi: int)
    requires Ups(checks, m, lo, hi) == [] && Downs(checks, m, lo, hi) == 0
    ensures HourRow(checks, m, lo, hi) == []
  {
  }

  /** A monitor without results gets no hourly row. */
  lemma StrangersHaveNoRow(t: RowTable, checks: seq<Check>, lo: int, hi: int)
    ensures forall m | m in t && m !in Monitors(checks) :: t[m] + HourRow(checks, m, lo, hi) == t[m]
  {
    hide HourRow;
    forall m | m in t && m !in Monitors(checks) ensures HourRow(checks, m, lo, hi) == [] {
      StrangerHasNone(checks, m, lo, hi);
      EmptyHour(checks, m, lo, hi);
    }
  }

  lemma DailyAt(t: RowTable, hourly: RowTable, lo: int, hi: int, m: string)
    ensures Get(DailyAggregated(t, hourly, lo, hi), m) == Get(t, m) + DayRow(RowsAt(Get(hourly, m), lo, hi), lo)
  {
  }

  lemma KeptAt(t: RowTable, cutoff: int, m: string)
    ensures Get(TableKept(t, cutoff), m) == RowsKept(Get(t, m), cutoff)
  {
  }

  /** A monitor without hourly rows gets no daily row. */
  lemma NoHourlyRows(daily: RowTable, hourly: RowTable, lo: int, hi: int)
    ensures forall m | m !in hourly :: DayRow(RowsAt(Get(hourly, m), lo, hi), lo) == []
    ensures forall m | m in daily && m !in hourly :: Get(daily, m) + [] == daily[m]
  {
  }
}
