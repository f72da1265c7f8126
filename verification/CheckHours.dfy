/** The daily row's check counts when the results of each hour arrived before it was first aggregated: how often
    each hour was aggregated is what counts, and one late tick is enough to miscount a day. */
module CheckHours {
  import opened MetricTiers
  import opened CheckTiers
  import opened CheckCounts
  import opened CheckDays
  import opened Options

  // ---------------------------------------------------------------- hours whose results had all arrived

  lemma MultipliedHour(all: seq<Check>, log: seq<Check>, m: string, w: int, h: int, c: nat)
    requires h % HOUR == 0 && w % HOUR == 0 && Multiplied(all, log, m, h, h + HOUR, c)
    ensures Multiplied(all + Windowed(log, w, w + HOUR), log, m, h, h + HOUR, c + if w == h then 1 else 0)
  {
    hide Ups, Downs, Windowed;
    AlignedWindows(w, h, h + HOUR);
    WindowIn(log, w, w + HOUR, m, h, h + HOUR);
    ChecksConcat(all, Windowed(log, w, w + HOUR), m, h, h + HOUR);
    OneMoreTime(c, |Ups(log, m, h, h + HOUR)|, Downs(log, m, h, h + HOUR));
  }

  lemma MultipliedResult(all: seq<Check>, log: seq<Check>, x: Check, m: string, h: int, c: nat)
    requires Multiplied(all, log, m, h, h + HOUR, c) && (h <= x.at < h + HOUR ==> c == 0)
    ensures Multiplied(all + [], log + [x], m, h, h + HOUR, c)
  {
    hide Ups, Downs;
    assert all + [] == all;
    ChecksStep(log, x, m, h, h + HOUR);
    OneMoreTime(c, |Ups(log, m, h, h + HOUR)|, Downs(log, m, h, h + HOUR));
  }

  lemma MultipliedStep(es: seq<CheckEvent>, e: CheckEvent, m: string, h: int, c: nat)
    requires h % HOUR == 0 && Multiplied(Counted(es), Recorded(es), m, h, h + HOUR, c)
    requires e.Result? && h <= e.c.at < h + HOUR ==> c == 0
    ensures Multiplied(Counted(es + [e]), Recorded(es + [e]), m, h, h + HOUR, c + if StepOf(e, h) then 1 else 0)
  {
    hide Multiplied, Counted, Recorded, Windowed, Truncate, CheckRun, Advance, Ups, Downs;
    CountedStep(es, e);
    match e {
      case Result(x, _) => MultipliedResult(Counted(es), Recorded(es), x, m, h, c);
      case DayStep(_, _, _) => assert Counted(es) + [] == Counted(es);
      case HourStep(now) =>
        HourAligned(now);
        MultipliedHour(Counted(es), Recorded(es), m, Truncate(now, HOUR) - HOUR, h, c);
    }
  }

  lemma OneMoreTime(c: nat, x: nat, y: nat)
    ensures (c + 1) * x == c * x + x && (c + 1) * y == c * y + y
    ensures c == 0 ==> c * x == 0 && c * y == 0
  {
  }

  /** An hour whose results had all arrived when it was first aggregated is counted as often as it was aggregated. */
  lemma {:induction false} CountedInHour(es: seq<CheckEvent>, now: int, m: string, h: int)
    requires Clocked(es, now) && Arrived(es, h) && h % HOUR == 0
    ensures Multiplied(Counted(es), Recorded(es), m, h, h + HOUR, Times(es, h))
  {
    hide Clocked, Arrived, Counted, Recorded, Multiplied, Times, StepOf;
    if es == [] {
      NothingMultiplied(m, h);
    } else {
      var n := |es| - 1;
      assert es == es[..n] + [es[n]];
      Prefixes(es[..n], es[n], now, h);
      CountedInHour(es[..n], es[n].now, m, h);
      MultipliedStep(es[..n], es[n], m, h, Times(es[..n], h));
    }
  }

  lemma NothingMultiplied(m: string, h: int)
    ensures Multiplied(Counted([]), Recorded([]), m, h, h + HOUR, Times([], h))
  {
  }

  ghost predicate AllArrived(es: seq<CheckEvent>, d: int, k: nat) {
    forall i | 0 <= i < k :: Arrived(es, d + i * HOUR)
  }

  /** The sum over a day's first `k` hours of aggregations times results with that status. */
  function SumHours(es: seq<CheckEvent>, m: string, d: int, k: nat, st: Status): nat {
    if k == 0 then 0
    else
      var h := d + (k - 1) * HOUR;
      SumHours(es, m, d, k - 1, st) + Times(es, h) * CountOf(Recorded(es), m, h, h + HOUR, st)
  }

  lemma {:induction false} HourSumsAre(es: seq<CheckEvent>, now: int, m: string, d: int, k: nat, st: Status)
    requires Clocked(es, now) && d % HOUR == 0 && AllArrived(es, d, k)
    ensures CountOf(Counted(es), m, d, d + k * HOUR, st) == SumHours(es, m, d, k, st)
  {
    hide Clocked, Arrived, Counted, Recorded, Times, Ups, Downs;
    if k == 0 {
      NoChecks(Counted(es), m, d);
    } else {
      var h := d + (k - 1) * HOUR;
      HourStart(d, k - 1);
      HourSumsAre(es, now, m, d, k - 1, st);
      assert Arrived(es, d + (k - 1) * HOUR);
      CountedInHour(es, now, m, h);
      ChecksSplit(Counted(es), m, d, h, h + HOUR);
    }
  }

  /** When the results of each hour had arrived before it was first aggregated: the daily row's counts are the sums
      over the hours of how often each was aggregated times its results. */
  lemma DayCountsPerHour(es: seq<CheckEvent>, e: CheckEvent, m: string, hours: nat)
    requires DayReady(es, e, hours) && AllArrived(es, e.dayStart, hours)
    ensures CountsAre(es, e, m, SumHours(es, m, e.dayStart, hours, Up), SumHours(es, m, e.dayStart, hours, Down))
  {
    hide Clocked, AllArrived, Counted, SumHours, CheckRun, Ups, Downs;
    HourSumsAre(es, e.now, m, e.dayStart, hours, Up);
    HourSumsAre(es, e.now, m, e.dayStart, hours, Down);
    DayCountsAre(es, e, m, hours);
  }

  lemma MultipliedUnion(all: seq<Check>, log: seq<Check>, m: string, lo: int, mid: int, hi: int, c: nat)
    requires lo <= mid <= hi && Multiplied(all, log, m, lo, mid, c) && Multiplied(all, log, m, mid, hi, c)
    ensures Multiplied(all, log, m, lo, hi, c)
  {
    hide Ups, Downs;
    ChecksSplit(all, m, lo, mid, hi);
    ChecksSplit(log, m, lo, mid, hi);
    Distributes(c, |Ups(log, m, lo, mid)|, |Ups(log, m, mid, hi)|);
    Distributes(c, Downs(log, m, lo, mid), Downs(log, m, mid, hi));
  }

  lemma {:induction false} CountedHours(es: seq<CheckEvent>, now: int, m: string, d: int, lo: nat, hi: nat, c: nat)
    requires Clocked(es, now) && d % HOUR == 0 && lo <= hi && AllArrived(es, d, hi)
    requires forall i | lo <= i < hi :: Times(es, d + i * HOUR) == c
    ensures Multiplied(Counted(es), Recorded(es), m, d + lo * HOUR, d + hi * HOUR, c)
    decreases hi
  {
    hide Clocked, Arrived, Counted, Recorded, Multiplied, Times;
    if lo == hi {
      NoneMultiplied(Counted(es), Recorded(es), m, d + lo * HOUR, c);
    } else {
      var h := d + (hi - 1) * HOUR;
      HourStart(d, hi - 1);
      CountedHours(es, now, m, d, lo, hi - 1, c);
      assert Arrived(es, d + (hi - 1) * HOUR) && Times(es, d + (hi - 1) * HOUR) == c;
      CountedInHour(es, now, m, h);
      MultipliedUnion(Counted(es), Recorded(es), m, d + lo * HOUR, h, h + HOUR, c);
    }
  }

  lemma NoneMultiplied(all: seq<Check>, log: seq<Check>, m: string, d: int, c: nat)
    ensures Multiplied(all, log, m, d, d, c)
  {
    NoChecks(all, m, d);
    NoChecks(log, m, d);
  }

  lemma MultipliedThenNone(all: seq<Check>, log: seq<Check>, m: string, lo: int, mid: int, hi: int, c: nat)
    requires lo <= mid <= hi && c > 0 && Multiplied(all, log, m, lo, mid, c) && Multiplied(all, log, m, mid, hi, 0)
    ensures |Ups(all, m, lo, hi)| == c * |Ups(log, m, lo, mid)| && Downs(all, m, lo, hi) == c * Downs(log, m, lo, mid)
    ensures forall v :: v in Ups(all, m, lo, hi) <==> v in Ups(log, m, lo, mid)
  {
    hide Ups, Downs;
    ChecksSplit(all, m, lo, mid, hi);
    assert Ups(all, m, mid, hi) == [];
  }

  /** When each of a day's first `n` hours was aggregated `c` times after its results arrived, and the remaining
      hours not at all, the daily step appends for each monitor seen in those hours one row with `c` times their
      up and down counts, the raw uptime and the raw latency extremes. */
  lemma DayConserves(es: seq<CheckEvent>, e: CheckEvent, m: string, hours: nat, n: nat, c: nat)
    requires DayReady(es, e, hours) && AllArrived(es, e.dayStart, hours) && n <= hours && c > 0
    requires forall i | 0 <= i < hours :: Times(es, e.dayStart + i * HOUR) == if i < n then c else 0
    ensures var log, mid := Recorded(es), e.dayStart + n * HOUR;
            DayGives(es, e, m, Ups(log, m, e.dayStart, mid), Downs(log, m, e.dayStart, mid), c)
  {
    hide Clocked, Arrived, Times, Recorded, Ups, Downs, Counted, Multiplied, DayGives;
    var d, all, log := e.dayStart, Counted(es), Recorded(es);
    DayCountsAre(es, e, m, hours);
    CountedHours(es, e.now, m, d, 0, n, c);
    CountedHours(es, e.now, m, d, n, hours, 0);
    MultipliedThenNone(all, log, m, d, d + n * HOUR, d + hours * HOUR, c);
    GivesScaled(es, e, m, Ups(all, m, d, e.dayEnd), Downs(all, m, d, e.dayEnd),
                Ups(log, m, d, d + n * HOUR), Downs(log, m, d, d + n * HOUR), c);
  }

  // ---------------------------------------------------------------- one late tick

  /** A failing result at 10:20 and a succeeding one at 11:20; the 11:30 tick is handled at 12:10, the next one
      on time at 12:30. */
  function LateTick(m: string, d: int, latency: real): seq<CheckEvent> {
    [Result(Check(m, d + 10 * HOUR + 1200, Down, 0.0), d + 10 * HOUR + 1200),
     Result(Check(m, d + 11 * HOUR + 1200, Up, latency), d + 11 * HOUR + 1200),
     HourStep(d + 12 * HOUR + 600), HourStep(d + 12 * HOUR + 1800)]
  }

  lemma LateTickTimes(m: string, d: int, latency: real, h: int)
    requires d % HOUR == 0 && h % HOUR == 0
    ensures Times(LateTick(m, d, latency), h) == if h == d + 11 * HOUR then 2 else 0
  {
    hide Truncate;
    var es := LateTick(m, d, latency);
    HourIs(d + 12 * HOUR + 600, d + 12 * HOUR);
    HourIs(d + 12 * HOUR + 1800, d + 12 * HOUR);
    assert es[..3][..2] == es[..2] && es[..2][..1] == es[..1] && es[..1][..0] == [];
    NoTimes(es[..2], h);
    assert Times(es[..3], h) == if h == d + 11 * HOUR then 1 else 0;
  }

  lemma LateTickReady(m: string, d: int, latency: real, e: CheckEvent)
    requires d % HOUR == 0 && e == DayStep(d, d + 24 * HOUR, d + 24 * HOUR)
    ensures DayReady(LateTick(m, d, latency), e, 24) && AllArrived(LateTick(m, d, latency), d, 24)
  {
    var es := LateTick(m, d, latency);
    forall h ensures Arrived(es, h) {
    }
  }

  lemma TwoChecks(a: Check, b: Check, m: string, lo: int, hi: int)
    ensures Ups([a, b], m, lo, hi) == (if Selects(a, m, lo, hi) && a.status == Up then [a.latency] else [])
                                      + (if Selects(b, m, lo, hi) && b.status == Up then [b.latency] else [])
    ensures Downs([a, b], m, lo, hi) == (if Selects(a, m, lo, hi) && a.status == Down then 1 else 0)
                                        + (if Selects(b, m, lo, hi) && b.status == Down then 1 else 0)
  {
    ChecksStep([], a, m, lo, hi);
    ChecksStep([a], b, m, lo, hi);
    assert [] + [a] == [a] && [a] + [b] == [a, b];
  }

  lemma LateTickCounted(m: string, d: int, latency: real)
    requires d % HOUR == 0
    ensures var es := LateTick(m, d, latency);
            Recorded(es) == [es[0].c, es[1].c] && Counted(es) == [es[1].c, es[1].c]
  {
    hide Truncate, Counted, Recorded, Windowed, CheckRun, Advance, CountedBy, Times;
    var es := LateTick(m, d, latency);
    LateTickRecorded(es);
    assert es[..2] + [es[2]] == es[..3] && es[..3] + [es[3]] == es;
    CountedStep(es[..2], es[2]);
    CountedStep(es[..3], es[3]);
    StepCounts(es[0].c, es[1].c, d + 12 * HOUR, d + 12 * HOUR + 600);
    StepCounts(es[0].c, es[1].c, d + 12 * HOUR, d + 12 * HOUR + 1800);
  }

  lemma LateTickRecorded(es: seq<CheckEvent>)
    requires |es| >= 2 && es[0].Result? && es[1].Result?
    ensures Recorded(es[..2]) == [es[0].c, es[1].c] && Counted(es[..2]) == []
  {
    hide Windowed, CheckRun, Advance;
    assert [] + [es[0]] == es[..1] && es[..1] + [es[1]] == es[..2];
    CountedStep([], es[0]);
    CountedStep(es[..1], es[1]);
  }

  lemma StepCounts(a: Check, b: Check, end: int, now: int)
    requires end % HOUR == 0 && end <= now < end + HOUR
    requires a.at < end - HOUR && end - HOUR <= b.at < end
    ensures CountedBy(HourStep(now), [a, b]) == [b]
  {
    hide Truncate, Windowed;
    HourIs(now, end);
    assert [a] + [b] == [a, b];
    OneWindowed(a, end - HOUR, end);
    WindowedStep([a], b, end - HOUR, end);
  }

  lemma LateTickResults(m: string, d: int, latency: real)
    requires d % HOUR == 0
    ensures var es, d' := LateTick(m, d, latency), d + 24 * HOUR;
            && Ups(Recorded(es), m, d, d') == [latency] && Downs(Recorded(es), m, d, d') == 1
            && Ups(Counted(es), m, d, d') == [latency, latency] && Downs(Counted(es), m, d, d') == 0
  {
    hide Recorded, Counted, Ups, Downs;
    var es := LateTick(m, d, latency);
    LateTickCounted(m, d, latency);
    TwoChecks(es[0].c, es[1].c, m, d, d + 24 * HOUR);
    TwoChecks(es[1].c, es[1].c, m, d, d + 24 * HOUR);
  }

  lemma {:induction false} NoDayYet(es: seq<CheckEvent>)
    requires forall i | 0 <= i < |es| :: !es[i].DayStep?
    ensures CheckRun(es).daily == map[]
  {
    hide HourlyAggregated, ChecksKept;
    if es != [] { NoDayYet(es[..|es| - 1]); }
  }

  /** One late tick: the 10:00 hour is never aggregated and the 11:00 hour twice. The daily row has two
      successes, no failure and full uptime, where one result succeeded and one failed. */
  lemma LateTickMiscounts(m: string, d: int, latency: real, e: CheckEvent)
    requires d % HOUR == 0 && e == DayStep(d, d + 24 * HOUR, d + 24 * HOUR)
    ensures var es := LateTick(m, d, latency);
            && DayReady(es, e, 24) && AllArrived(es, d, 24)
            && Times(es, d + 10 * HOUR) == 0 && Times(es, d + 11 * HOUR) == 2
            && Ups(Recorded(es), m, d, e.dayEnd) == [latency] && Downs(Recorded(es), m, d, e.dayEnd) == 1
            && CountsAre(es, e, m, 2, 0) && Get(CheckRun(es + [e]).daily, m)[0].uptime == Some(100.0)
  {
    hide Times, Truncate, LateTick, DayReady, AllArrived, CheckRun, Recorded, Counted, Ups, Downs;
    var es := LateTick(m, d, latency);
    LateTickReady(m, d, latency, e);
    LateTickTimes(m, d, latency, d + 10 * HOUR);
    LateTickTimes(m, d, latency, d + 11 * HOUR);
    LateTickResults(m, d, latency);
    DayCountsAre(es, e, m, 24);
    NothingBefore(m, d, latency);
  }

  lemma NothingBefore(m: string, d: int, latency: real)
    ensures Get(CheckRun(LateTick(m, d, latency)).daily, m) == []
  {
    hide CheckRun;
    NoDayYet(LateTick(m, d, latency));
  }
}
