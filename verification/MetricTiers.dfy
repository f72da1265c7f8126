/** Agent metrics downsampled raw -> 5 minutes -> hour -> day, with the retention deletes. Times are
    whole Unix seconds; metric values are reals. */
module MetricTiers {
  import opened Sequences

  const FIVE_MINUTES := 300
  const HOUR := 3600
  const RETAIN_RAW := 6 * HOUR
  const RETAIN_FIVE := 24 * HOUR
  const RETAIN_HOURLY := 90 * 24 * HOUR

  /** Seconds from the origin of Go's `Truncate` (1 January of year 1) to the Unix epoch. */
  const EPOCH := 62_135_596_800

  /** `t.Truncate(d)`, which rounds down to a multiple of `d` counted from year 1. */
  function Truncate(t: int, d: int): int
    requires d > 0
  {
    t - (t + EPOCH) % d
  }

  /** SQLite's integer division truncates toward zero. */
  function SqlDiv(a: int, b: int): int
    requires b > 0
  {
    if a >= 0 then a / b else -((-a) / b)
  }

  /** SQLite's division rounds towards zero, for either sign. */
  lemma SqlDivTruncates(a: int, b: int)
    requires b > 0
    ensures a >= 0 ==> SqlDiv(a, b) * b <= a < SqlDiv(a, b) * b + b
    ensures a <= 0 ==> SqlDiv(a, b) * b - b < a <= SqlDiv(a, b) * b
  {
    if a < 0 { Quotient(-a, b); } else { Quotient(a, b); }
  }

  lemma Quotient(a: int, b: int)
    requires a >= 0 && b > 0
    ensures a / b * b <= a < a / b * b + b && -(a / b) * b == -(a / b * b)
  {
  }

  function Bucket(at: int): int { SqlDiv(at, FIVE_MINUTES) * FIVE_MINUTES }

  datatype Series = Series(host: string, metric: string)

  datatype Sample = Sample(series: Series, at: int, value: real)

  datatype Summary = Summary(avg: real, min: real, max: real)

  /** The unique key of every aggregate table. */
  datatype Key = Key(series: Series, at: int)

  type Table = map<Key, Summary>

  // ---------------------------------------------------------------- SQL aggregates

  function Sum(vs: seq<real>): real {
    if vs == [] then 0.0 else Sum(vs[..|vs| - 1]) + vs[|vs| - 1]
  }

  function Mean(vs: seq<real>): real
    requires vs != []
  {
    Sum(vs) / (|vs| as real)
  }

  function Min(vs: seq<real>): (m: real)
    requires vs != []
    ensures m in vs && forall i | 0 <= i < |vs| :: m <= vs[i]
  {
    if |vs| == 1 then vs[0]
    else
      var n := |vs| - 1;
      var rest := Min(vs[..n]);
      assert rest in vs[..n];
      if rest <= vs[n] then rest else vs[n]
  }

  function Max(vs: seq<real>): (m: real)
    requires vs != []
    ensures m in vs && forall i | 0 <= i < |vs| :: vs[i] <= m
  {
    if |vs| == 1 then vs[0]
    else
      var n := |vs| - 1;
      var rest := Max(vs[..n]);
      assert rest in vs[..n];
      if rest >= vs[n] then rest else vs[n]
  }

  /** The values of a series with `lo <= timestamp < hi`, in insertion order. */
  function Values(rows: seq<Sample>, s: Series, lo: int, hi: int): seq<real> {
    if rows == [] then []
    else
      var n := |rows| - 1;
      var rest := Values(rows[..n], s, lo, hi);
      if rows[n].series == s && lo <= rows[n].at < hi then rest + [rows[n].value] else rest
  }

  function Summarise(vs: seq<real>): Summary
    requires vs != []
  {
    Summary(Mean(vs), Min(vs), Max(vs))
  }

  /** The summaries of a series with `lo <= key < hi`, in key order. */
  function Rows(t: Table, s: Series, lo: int, hi: int): seq<Summary>
    decreases hi - lo
  {
    if hi <= lo then []
    else
      var rest := Rows(t, s, lo, hi - 1);
      if Key(s, hi - 1) in t then rest + [t[Key(s, hi - 1)]] else rest
  }

  function Avgs(rows: seq<Summary>): seq<real> { seq(|rows|, i requires 0 <= i < |rows| => rows[i].avg) }
  function Mins(rows: seq<Summary>): seq<real> { seq(|rows|, i requires 0 <= i < |rows| => rows[i].min) }
  function Maxs(rows: seq<Summary>): seq<real> { seq(|rows|, i requires 0 <= i < |rows| => rows[i].max) }

  /** `AVG(avg), MIN(min), MAX(max)`. */
  function Combine(rows: seq<Summary>): Summary
    requires rows != []
  {
    Summary(Mean(Avgs(rows)), Min(Mins(rows)), Max(Maxs(rows)))
  }

  // ---------------------------------------------------------------- the aggregation statements

  /** The rows of one 5-minute group. */
  function Group(raw: seq<Sample>, from: int, to: int, k: Key): seq<real> {
    if raw == [] then []
    else
      var n := |raw| - 1;
      var x := raw[n];
      var rest := Group(raw[..n], from, to, k);
      if from <= x.at < to && Key(x.series, Bucket(x.at)) == k then rest + [x.value] else rest
  }

  function GroupKeys(raw: seq<Sample>, from: int, to: int): set<Key> {
    set i | 0 <= i < |raw| && from <= raw[i].at < to :: Key(raw[i].series, Bucket(raw[i].at))
  }

  lemma {:induction false} GroupNonEmpty(raw: seq<Sample>, from: int, to: int, k: Key)
    ensures Group(raw, from, to, k) != [] <==> k in GroupKeys(raw, from, to)
  {
    if raw != [] {
      var n := |raw| - 1;
      GroupNonEmpty(raw[..n], from, to, k);
      assert forall i | 0 <= i < n :: raw[..n][i] == raw[i];
      assert GroupKeys(raw, from, to) == GroupKeys(raw[..n], from, to) +
        if from <= raw[n].at < to then {Key(raw[n].series, Bucket(raw[n].at))} else {};
    }
  }

  /** The 5-minute statement: `GROUP BY host, bucket, metric_name`, upserted. */
  function FiveAggregated(five: Table, raw: seq<Sample>, from: int, to: int): Table {
    five + map k | k in GroupKeys(raw, from, to) ::
      (GroupNonEmpty(raw, from, to, k); Summarise(Group(raw, from, to, k)))
  }

  function SeriesIn(t: Table, lo: int, hi: int): set<Series> {
    set k | k in t && lo <= k.at < hi :: k.series
  }

  lemma {:induction false} RowsNonEmpty(t: Table, s: Series, lo: int, hi: int)
    ensures Rows(t, s, lo, hi) != [] <==> s in SeriesIn(t, lo, hi)
    decreases hi - lo
  {
    if lo < hi {
      RowsNonEmpty(t, s, lo, hi - 1);
      if s in SeriesIn(t, lo, hi) {
        var k :| k in t && lo <= k.at < hi && k.series == s;
        assert k == Key(s, k.at);
      }
      if s in SeriesIn(t, lo, hi - 1) {
        var k :| k in t && lo <= k.at < hi - 1 && k.series == s;
        assert s in SeriesIn(t, lo, hi);
      }
      if Key(s, hi - 1) in t {
        assert Key(s, hi - 1).series in SeriesIn(t, lo, hi);
      }
    }
  }

  /** The hourly and daily statements: one row per series over `[lo, hi)`, keyed by `lo`, upserted. */
  function Aggregated(into: Table, source: Table, lo: int, hi: int): Table {
    into + map k | k in (set s | s in SeriesIn(source, lo, hi) :: Key(s, lo)) ::
      (RowsNonEmpty(source, k.series, lo, hi); Combine(Rows(source, k.series, lo, hi)))
  }

  function RawKept(raw: seq<Sample>, cutoff: int): seq<Sample> {
    if raw == [] then []
    else
      var n := |raw| - 1;
      if raw[n].at < cutoff then RawKept(raw[..n], cutoff) else RawKept(raw[..n], cutoff) + [raw[n]]
  }

  lemma {:induction false} RawKeptFilters(raw: seq<Sample>, cutoff: int)
    ensures Filtered(RawKept(raw, cutoff), raw, (x: Sample) => x.at >= cutoff)
  {
    hide Filtered;
    if raw == [] {
      FilteredNothing((x: Sample) => x.at >= cutoff);
    } else {
      var n := |raw| - 1;
      RawKeptFilters(raw[..n], cutoff);
      FilteredStep(RawKept(raw[..n], cutoff), raw[..n], raw[n], (x: Sample) => x.at >= cutoff);
      assert raw == raw[..n] + [raw[n]];
    }
  }

  function Kept(t: Table, cutoff: int): Table {
    map k | k in t && k.at >= cutoff :: t[k]
  }

  // ---------------------------------------------------------------- the downsampler

  datatype Tiers = Tiers(raw: seq<Sample>, five: Table, hourly: Table, daily: Table)

  datatype Event =
    | Insert(x: Sample, now: int)
    | Tick5(now: int)
    | TickHour(now: int)
    | TickDay(dayStart: int, dayEnd: int, now: int)

  function Step(t: Tiers, e: Event): Tiers {
    match e
    case Insert(x, _) => t.(raw := t.raw + [x])
    case Tick5(now) =>
      var end := Truncate(now, FIVE_MINUTES);
      t.(five := FiveAggregated(t.five, t.raw, end - FIVE_MINUTES, end), raw := RawKept(t.raw, now - RETAIN_RAW))
    case TickHour(now) =>
      var end := Truncate(now, HOUR);
      t.(hourly := Aggregated(t.hourly, t.five, end - HOUR, end), five := Kept(t.five, now - RETAIN_FIVE))
    case TickDay(dayStart, dayEnd, now) =>
      t.(daily := Aggregated(t.daily, t.hourly, dayStart, dayEnd), hourly := Kept(t.hourly, now - RETAIN_HOURLY))
  }

  function Run(es: seq<Event>): Tiers {
    if es == [] then Tiers([], map[], map[], map[]) else Step(Run(es[..|es| - 1]), es[|es| - 1])
  }

  // ---------------------------------------------------------------- the statements, row by row

  /** `AVG, MIN, MAX` of a group. */
  method Aggregates(vs: seq<real>) returns (r: Summary)
    requires vs != []
    ensures r == Summarise(vs)
  {
    var sum, min, max := vs[0], vs[0], vs[0];
    assert vs[..1] == [vs[0]] && vs[..1][..0] == [];
    for i := 1 to |vs|
      invariant sum == Sum(vs[..i]) && min == Min(vs[..i]) && max == Max(vs[..i])
    {
      assert vs[..i + 1][..i] == vs[..i];
      sum := sum + vs[i];
      min := if min <= vs[i] then min else vs[i];
      max := if max >= vs[i] then max else vs[i];
    }
    assert vs[..|vs|] == vs;
    r := Summary(sum / (|vs| as real), min, max);
  }

  /** `AVG(avg), MIN(min), MAX(max)` of a group. */
  method CombineRows(rows: seq<Summary>) returns (r: Summary)
    requires rows != []
    ensures r == Combine(rows)
  {
    hide Sum, Min, Max, Mean;
    var avgs, mins, maxs := Avgs(rows), Mins(rows), Maxs(rows);
    var a := Aggregates(avgs);
    var b := Aggregates(mins);
    var c := Aggregates(maxs);
    r := Summary(a.avg, b.min, c.max);
  }

  /** A scan of the index on host, metric and time. */
  method ScanIndex(t: Table, s: Series, lo: int, hi: int) returns (rows: seq<Summary>)
    ensures rows == Rows(t, s, lo, hi)
  {
    rows := [];
    var at := lo;
    while at < hi
      invariant lo <= at && (at <= hi || at == lo) && rows == Rows(t, s, lo, at)
    {
      if Key(s, at) in t { rows := rows + [t[Key(s, at)]]; }
      at := at + 1;
    }
  }

  /** The upsert wrote the combined rows of each series of `[lo, hi)` under `lo`, and nothing else. */
  ghost predicate Upserts(before: Table, after: Table, source: Table, lo: int, hi: int) {
    forall k: Key ::
      var rows := Rows(source, k.series, lo, hi);
      if k.at == lo && rows != [] then k in after && after[k] == Combine(rows)
      else (k in after <==> k in before) && (k in before ==> after[k] == before[k])
  }

  lemma AggregatedUpserts(before: Table, source: Table, lo: int, hi: int)
    ensures Upserts(before, Aggregated(before, source, lo, hi), source, lo, hi)
  {
    hide Rows, Combine;
    forall k: Key { RowsNonEmpty(source, k.series, lo, hi); }
  }

  /** The combined row of a series, if it has rows. */
  function CombinedRow(source: Table, s: Series, lo: int, hi: int): seq<Summary> {
    var rows := Rows(source, s, lo, hi);
    if rows == [] then [] else [Combine(rows)]
  }

  /** The upsert carried out for some of the series. */
  ghost predicate Upserting(into: Table, out: Table, source: Table, lo: int, hi: int, done: set<Series>) {
    && (forall k: Key :: k in out <==> k in into || (k.at == lo && k.series in done))
    && forall k: Key | k in out ::
         if k.at == lo && k.series in done then [out[k]] == CombinedRow(source, k.series, lo, hi) else out[k] == into[k]
  }

  lemma UpsertOne(into: Table, out: Table, source: Table, lo: int, hi: int, done: set<Series>, s: Series, row: Summary)
    requires Upserting(into, out, source, lo, hi, done) && [row] == CombinedRow(source, s, lo, hi)
    ensures Upserting(into, out[Key(s, lo) := row], source, lo, hi, done + {s})
  {
    hide CombinedRow;
  }

  lemma UpsertAll(into: Table, out: Table, source: Table, lo: int, hi: int)
    requires Upserting(into, out, source, lo, hi, SeriesIn(source, lo, hi))
    ensures out == Aggregated(into, source, lo, hi)
  {
    hide Rows, Combine, SeriesIn;
    var t := Aggregated(into, source, lo, hi);
    forall k | k in out ensures k in t && t[k] == out[k] {
      RowsNonEmpty(source, k.series, lo, hi);
      assert k == Key(k.series, k.at);
    }
  }

  /** The hourly and the daily statement. */
  method Aggregate(into: Table, source: Table, lo: int, hi: int) returns (out: Table)
    ensures out == Aggregated(into, source, lo, hi)
  {
    hide Rows, Combine, Aggregated, Upserting;
    out := into;
    var todo := set k | k in source && lo <= k.at < hi :: k.series;
    ghost var done: set<Series> := {};
    UpsertNone(into, source, lo, hi);
    while todo != {}
      invariant todo + done == SeriesIn(source, lo, hi)
      invariant Upserting(into, out, source, lo, hi, done)
    {
      assert (forall s :: s !in todo) ==> todo == {};
      var s :| s in todo;
      RowsNonEmpty(source, s, lo, hi);
      var rows := ScanIndex(source, s, lo, hi);
      var row := CombineRows(rows);
      UpsertOne(into, out, source, lo, hi, done, s, row);
      out := out[Key(s, lo) := row];
      todo, done := todo - {s}, done + {s};
    }
    assert done == SeriesIn(source, lo, hi);
    UpsertAll(into, out, source, lo, hi);
  }

  lemma UpsertNone(into: Table, source: Table, lo: int, hi: int)
    ensures Upserting(into, into, source, lo, hi, {})
  {
  }

  method DeleteOlder(t: Table, cutoff: int) returns (kept: Table)
    ensures kept == Kept(t, cutoff)
  {
    kept := t;
    var todo := t.Keys;
    while todo != {}
      invariant todo <= t.Keys
      invariant forall k :: k in kept <==> k in t && (k in todo || k.at >= cutoff)
      invariant forall k | k in kept :: kept[k] == t[k]
    {
      assert (forall k :: k !in todo) ==> todo == {};
      var k :| k in todo;
      if k.at < cutoff { kept := kept - {k}; }
      todo := todo - {k};
    }
  }

  /** What one sample adds to the groups of the 5-minute statement. */
  lemma GroupStep(raw: seq<Sample>, from: int, to: int, i: nat)
    requires i < |raw|
    ensures var k := Key(raw[i].series, Bucket(raw[i].at)); var inside := from <= raw[i].at < to;
            && GroupKeys(raw[..i + 1], from, to) == GroupKeys(raw[..i], from, to) + (if inside then {k} else {})
            && forall q :: Group(raw[..i + 1], from, to, q) ==
                           Group(raw[..i], from, to, q) + if inside && q == k then [raw[i].value] else []
  {
    hide Bucket;
    assert raw[..i + 1][..i] == raw[..i];
    assert forall j | 0 <= j < i :: raw[..i + 1][j] == raw[..i][j];
    assert forall q :: Group(raw[..i], from, to, q) + [] == Group(raw[..i], from, to, q);
  }

  lemma NoGroups(from: int, to: int)
    ensures GroupKeys([], from, to) == {}
  {
  }

  /** `WHERE timestamp >= from AND timestamp < to GROUP BY host, bucket, metric_name`. */
  method GroupRows(raw: seq<Sample>, from: int, to: int) returns (groups: map<Key, seq<real>>)
    ensures groups.Keys == GroupKeys(raw, from, to)
    ensures forall k | k in groups :: groups[k] == Group(raw, from, to, k)
  {
    hide Bucket, Group, GroupKeys;
    groups := map[];
    NoGroups(from, to);
    assert raw[..0] == [];
    for i := 0 to |raw|
      invariant groups.Keys == GroupKeys(raw[..i], from, to)
      invariant forall k | k in groups :: groups[k] == Group(raw[..i], from, to, k)
    {
      GroupStep(raw, from, to, i);
      if from <= raw[i].at < to {
        var k := Key(raw[i].series, Bucket(raw[i].at));
        GroupNonEmpty(raw[..i], from, to, k);
        groups := groups[k := (if k in groups then groups[k] else []) + [raw[i].value]];
      }
    }
    assert raw[..|raw|] == raw;
  }

  lemma FiveUpserted(before: Table, after: Table, raw: seq<Sample>, from: int, to: int, groups: map<Key, seq<real>>)
    requires groups.Keys == GroupKeys(raw, from, to) && after.Keys == before.Keys + groups.Keys
    requires forall k | k in groups ::
               groups[k] != [] && groups[k] == Group(raw, from, to, k) && after[k] == Summarise(groups[k])
    requires forall k | k in before && k !in groups :: after[k] == before[k]
    ensures after == FiveAggregated(before, raw, from, to)
  {
    hide Bucket, Group, GroupKeys, Summarise;
  }

  // ---------------------------------------------------------------- the store

  class MetricStore {
    var raw: seq<Sample>
    var five: Table
    var hourly: Table
    var daily: Table

    ghost function View(): Tiers
      reads this
    {
      Tiers(raw, five, hourly, daily)
    }

    constructor ()
      ensures View() == Run([])
    {
      raw, five, hourly, daily := [], map[], map[], map[];
    }

    method InsertAgentMetric(x: Sample, now: int)
      modifies this`raw
      ensures View() == Step(old(View()), Insert(x, now))
    {
      raw := raw + [x];
    }

    method AggregateFiveMin(from: int, to: int)
      modifies this`five
      ensures five == FiveAggregated(old(five), raw, from, to)
    {
      hide Bucket, Group, GroupKeys, Summarise, FiveAggregated;
      var groups := GroupRows(raw, from, to);
      var todo := groups.Keys;
      while todo != {}
        invariant todo <= groups.Keys
        invariant five.Keys == old(five).Keys + (groups.Keys - todo)
        invariant forall k | k in groups && k !in todo :: groups[k] != [] && five[k] == Summarise(groups[k])
        invariant forall k | k in old(five) && k !in groups.Keys - todo :: five[k] == old(five)[k]
      {
        assert (forall k :: k !in todo) ==> todo == {};
        var k :| k in todo;
        GroupNonEmpty(raw, from, to, k);
        var row := Aggregates(groups[k]);
        five := five[k := row];
        todo := todo - {k};
      }
      FiveUpserted(old(five), five, raw, from, to, groups);
    }

    method DeleteOldRaw(cutoff: int) returns (deleted: nat)
      modifies this`raw
      ensures raw == RawKept(old(raw), cutoff) && deleted == |old(raw)| - |raw|
      ensures Filtered(raw, old(raw), (x: Sample) => x.at >= cutoff)
    {
      RawKeptFilters(raw, cutoff);
      var kept: seq<Sample> := [];
      deleted := 0;
      for i := 0 to |raw|
        invariant raw == old(raw) && kept == RawKept(raw[..i], cutoff) && deleted == i - |kept|
      {
        assert raw[..i + 1][..i] == raw[..i];
        if raw[i].at < cutoff { deleted := deleted + 1; } else { kept := kept + [raw[i]]; }
      }
      assert raw[..|raw|] == raw;
      raw := kept;
    }

    /** One turn of the 5-minute loop. */
    method FiveMinTick(now: int)
      modifies this
      ensures Filtered(raw, old(raw), (x: Sample) => x.at >= now - 6 * HOUR)
      ensures hourly == old(hourly) && daily == old(daily)
      ensures View() == Step(old(View()), Tick5(now))
    {
      hide FiveAggregated, RawKept, Truncate, Filtered;
      var end := Truncate(now, FIVE_MINUTES);
      var start := end - FIVE_MINUTES;
      AggregateFiveMin(start, end);
      var _ := DeleteOldRaw(now - RETAIN_RAW);
    }

    method RunHourlyAggregation(now: int)
      modifies this
      ensures Upserts(old(hourly), hourly, old(five), Truncate(now, HOUR) - HOUR, Truncate(now, HOUR))
      ensures forall k :: k in five <==> k in old(five) && k.at >= now - 24 * HOUR
      ensures forall k | k in five :: five[k] == old(five)[k]
      ensures View() == Step(old(View()), TickHour(now))
    {
      hide Aggregated, Truncate, Upserts;
      var hourEnd := Truncate(now, HOUR);
      var hourStart := hourEnd - HOUR;
      AggregatedUpserts(hourly, five, hourStart, hourEnd);
      hourly := Aggregate(hourly, five, hourStart, hourEnd);
      five := DeleteOlder(five, now - RETAIN_FIVE);
    }

    method RunDailyAggregation(dayStart: int, dayEnd: int, now: int)
      modifies this
      ensures Upserts(old(daily), daily, old(hourly), dayStart, dayEnd)
      ensures forall k :: k in hourly <==> k in old(hourly) && k.at >= now - 90 * 24 * HOUR
      ensures forall k | k in hourly :: hourly[k] == old(hourly)[k]
      ensures View() == Step(old(View()), TickDay(dayStart, dayEnd, now))
    {
      hide Aggregated, Upserts;
      AggregatedUpserts(daily, hourly, dayStart, dayEnd);
      daily := Aggregate(daily, hourly, dayStart, dayEnd);
      hourly := DeleteOlder(hourly, now - RETAIN_HOURLY);
    }
  }
}
