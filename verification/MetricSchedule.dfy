/** When the tickers run: a ticker started at `s` with period `P` fires at `s + k * P`, and its loop reads
    the clock at or after that. Which windows get aggregated, and which buckets are ready in time. */
module MetricSchedule {
  import opened Arithmetic
  import opened MetricTiers
  import opened MetricExactness
  import opened MetricRuns
  import opened MetricHours

  // ---------------------------------------------------------------- windows tile time

  /** Tick `k` read the clock before its period was over. */
  ghost predicate OnTime(now: int, s: int, period: int, k: int)
    requires period > 0
  {
    s + k * period <= now < Truncate(s, period) + (k + 1) * period
  }

  lemma TruncateBounds(x: int, d: int)
    requires d > 0
    ensures Truncate(x, d) <= x < Truncate(x, d) + d && (Truncate(x, d) + EPOCH) % d == 0
  {
    var q := (x + EPOCH) / d;
    assert Truncate(x, d) + EPOCH == q * d;
    MultipleMod(q, d);
  }

  /** The only aligned instant at most `d` before `x` is its truncation. */
  lemma TruncateUnique(x: int, d: int, m: int)
    requires d > 0 && (m + EPOCH) % d == 0 && m <= x < m + d
    ensures Truncate(x, d) == m
  {
    var q, p := (m + EPOCH) / d, (x + EPOCH) / d;
    assert m + EPOCH == q * d && x + EPOCH == p * d + (x + EPOCH) % d;
    assert (p - q) * d == p * d - q * d;
    SmallMultiple(p - q, d);
  }

  lemma Shifted(s: int, d: int, k: int)
    requires d > 0
    ensures (Truncate(s, d) + k * d + EPOCH) % d == 0
  {
    TruncateBounds(s, d);
    var q := (Truncate(s, d) + EPOCH) / d;
    assert Truncate(s, d) + EPOCH == q * d;
    assert (q + k) * d == q * d + k * d;
    MultipleMod(q + k, d);
  }

  /** A tick aggregates its own period's window exactly when it ran inside its period. */
  lemma OnTimeIff(now: int, s: int, period: int, k: int)
    requires period > 0 && s + k * period <= now
    ensures Truncate(now, period) >= Truncate(s, period) + k * period
    ensures Truncate(now, period) == Truncate(s, period) + k * period <==> OnTime(now, s, period, k)
  {
    hide Truncate;
    var m := Truncate(s, period) + k * period;
    assert (k + 1) * period == k * period + period;
    TruncateBounds(s, period);
    TruncateBounds(now, period);
    Shifted(s, period, k);
    if now < m + period {
      TruncateUnique(now, period, m);
    }
  }

  ghost predicate InWindow(now: int, period: int, t: int)
    requires period > 0
  {
    Truncate(now, period) - period <= t < Truncate(now, period)
  }

  /** The clock readings of the first ticks: tick `k + 1` reads `nows[k]`, at or after it fired. */
  ghost predicate Fired(nows: seq<int>, s: int, period: int) {
    forall k | 0 <= k < |nows| :: s + (k + 1) * period <= nows[k]
  }

  ghost predicate Covered(nows: seq<int>, period: int, t: int)
    requires period > 0
  {
    exists k :: 0 <= k < |nows| && InWindow(nows[k], period, t)
  }

  ghost predicate AllOnTime(nows: seq<int>, s: int, period: int)
    requires period > 0
  {
    forall k | 0 <= k < |nows| :: OnTime(nows[k], s, period, k + 1)
  }

  lemma WindowIs(nows: seq<int>, s: int, period: int, k: nat)
    requires period > 0 && Fired(nows, s, period) && k < |nows|
    ensures Truncate(nows[k], period) >= Truncate(s, period) + k * period + period
    ensures Truncate(nows[k], period) == Truncate(s, period) + k * period + period <==>
            OnTime(nows[k], s, period, k + 1)
  {
    hide Truncate, OnTime;
    OnTimeIff(nows[k], s, period, k + 1);
    assert (k + 1) * period == k * period + period;
  }

  lemma OnTimeCovers(nows: seq<int>, s: int, period: int, t: int)
    requires period > 0 && Fired(nows, s, period) && AllOnTime(nows, s, period)
    requires Truncate(s, period) <= t < Truncate(s, period) + |nows| * period
    ensures Covered(nows, period, t)
  {
    hide Truncate, OnTime, Fired;
    var x := t - Truncate(s, period);
    var k := x / period;
    assert k * period <= x < k * period + period;
    if |nows| <= k { MultipleOrder(|nows|, k, period); assert false; }
    WindowIs(nows, s, period, k);
    assert InWindow(nows[k], period, t);
  }

  /** If the windows leave no gap, every tick up to `m` was on time. */
  lemma {:induction false} GapFreeOnTime(nows: seq<int>, s: int, period: int, m: nat)
    requires period > 0 && Fired(nows, s, period) && m <= |nows|
    requires forall t | Truncate(s, period) <= t < Truncate(s, period) + |nows| * period :: Covered(nows, period, t)
    ensures forall k | 0 <= k < m :: OnTime(nows[k], s, period, k + 1)
  {
    hide Truncate, OnTime, Fired;
    if m > 0 {
      GapFreeOnTime(nows, s, period, m - 1);
      var t := Truncate(s, period) + (m - 1) * period;
      MultipleOrder(0, m - 1, period);
      MultipleOrder(m - 1, |nows|, period);
      assert Covered(nows, period, t);
      var k: nat :| k < |nows| && InWindow(nows[k], period, t);
      WindowIs(nows, s, period, k);
      if k < m - 1 {
        MultipleOrder(k, m - 1, period);
        assert false;
      }
      if k > m - 1 {
        MultipleOrder(m - 1, k, period);
        assert false;
      }
    }
  }

  /** The windows of the first ticks cover the time from the truncated start without a gap exactly when
      every tick ran inside its period. */
  lemma WindowsTileIff(nows: seq<int>, s: int, period: int)
    requires period > 0 && Fired(nows, s, period)
    ensures (forall t | Truncate(s, period) <= t < Truncate(s, period) + |nows| * period :: Covered(nows, period, t))
            <==> AllOnTime(nows, s, period)
  {
    hide Truncate, OnTime, Fired, Covered;
    if forall t | Truncate(s, period) <= t < Truncate(s, period) + |nows| * period :: Covered(nows, period, t) {
      GapFreeOnTime(nows, s, period, |nows|);
    }
    if AllOnTime(nows, s, period) {
      forall t | Truncate(s, period) <= t < Truncate(s, period) + |nows| * period ensures Covered(nows, period, t) {
        OnTimeCovers(nows, s, period, t);
      }
    }
  }

  /** On-time windows do not overlap. */
  lemma WindowsDisjoint(nows: seq<int>, s: int, period: int, t: int, i: nat, j: nat)
    requires period > 0 && Fired(nows, s, period) && AllOnTime(nows, s, period)
    requires i < |nows| && j < |nows| && InWindow(nows[i], period, t) && InWindow(nows[j], period, t)
    ensures i == j
  {
    hide Truncate, OnTime, Fired;
    WindowIs(nows, s, period, i);
    WindowIs(nows, s, period, j);
    if i < j { MultipleOrder(i, j, period); }
    if j < i { MultipleOrder(j, i, period); }
  }

  // ---------------------------------------------------------------- twelve buckets before their hour

  /** The tick that aggregates bucket `i` of the window of hourly tick `j`, both tickers started at `s`. */
  function BucketTick(s: int, j: int, i: int): int {
    12 * (j - 1) + i + 1 - (s + EPOCH) % HOUR / FIVE_MINUTES
  }

  /** The start of the window of hourly tick `j`. */
  function HourWindow(s: int, j: int): int { Truncate(s, HOUR) + (j - 1) * HOUR }

  /** On time, tick `BucketTick` aggregates bucket `i`, and no other on-time tick does. */
  lemma BucketTickIs(s: int, j: int, i: int, k: int)
    requires 0 <= i < 12
    ensures Truncate(s, FIVE_MINUTES) + k * FIVE_MINUTES == HourWindow(s, j) + i * FIVE_MINUTES + FIVE_MINUTES
            <==> k == BucketTick(s, j, i)
  {
    assert (s + EPOCH) % FIVE_MINUTES == (s + EPOCH) % HOUR % FIVE_MINUTES;
  }

  /** The last bucket's tick fires at least five minutes before the hourly one exactly when the start is
      five minutes or more into its hour; otherwise the two fire together. */
  lemma BucketsReadyIff(s: int, j: int)
    ensures (forall i | 0 <= i < 12 :: s + (BucketTick(s, j, i) + 1) * FIVE_MINUTES <= s + j * HOUR)
            <==> (s + EPOCH) % HOUR >= FIVE_MINUTES
    ensures (s + EPOCH) % HOUR < FIVE_MINUTES <==> s + BucketTick(s, j, 11) * FIVE_MINUTES == s + j * HOUR
  {
    var m := (s + EPOCH) % HOUR / FIVE_MINUTES;
    assert BucketTick(s, j, 11) == 12 * j - m;
    assert forall i | 0 <= i < 12 :: BucketTick(s, j, i) == 12 * j - m - 11 + i;
    if m == 0 { assert !(s + (BucketTick(s, j, 11) + 1) * FIVE_MINUTES <= s + j * HOUR); }
  }

  // ---------------------------------------------------------------- runs that keep to the schedule

  /** The first `count` 5-minute ticks all ran, on time. */
  ghost predicate FiveTicks(es: seq<Event>, s: int, count: int) {
    forall k | 1 <= k <= count :: FiveTick(es, s, k)
  }

  ghost predicate FiveTick(es: seq<Event>, s: int, k: int) {
    exists i :: 0 <= i < |es| && es[i].Tick5? && OnTime(es[i].now, s, FIVE_MINUTES, k)
  }

  ghost predicate HourTick(es: seq<Event>, s: int, j: int) {
    exists i :: 0 <= i < |es| && es[i].TickHour? && OnTime(es[i].now, s, HOUR, j)
  }

  /** Every sample arrives before the tick that aggregates its bucket fires. */
  ghost predicate Prompt(es: seq<Event>, s: int) {
    forall i | 0 <= i < |es| && es[i].Insert? ::
      es[i].now < Truncate(es[i].x.at, FIVE_MINUTES) + FIVE_MINUTES + (s + EPOCH) % FIVE_MINUTES
  }

  /** Once the clock has passed an instant, no sample from before it is missing. */
  lemma PromptQuiet(es: seq<Event>, now: int, s: int, g: nat, lo: int, hi: int)
    requires Clocked(es, now) && Prompt(es, s) && g < |es|
    requires hi % FIVE_MINUTES == 0 && es[g].now >= hi + (s + EPOCH) % FIVE_MINUTES
    ensures Quiet(es, g, lo, hi)
  {
    hide Truncate;
    forall j | g <= j < |es| && es[j].Insert? ensures !(lo <= es[j].x.at < hi) {
      TruncateFacts(es[j].x.at, FIVE_MINUTES);
      assert es[g].now <= es[j].now;
      if es[j].x.at < hi { BucketEnds(Truncate(es[j].x.at, FIVE_MINUTES), hi); }
    }
  }

  lemma BucketEnds(b: int, hi: int)
    requires b % FIVE_MINUTES == 0 && hi % FIVE_MINUTES == 0 && b < hi
    ensures b + FIVE_MINUTES <= hi
  {
  }

  /** On a prompt schedule, a bucket is done once its tick has run. */
  lemma TickDoesBucket(es: seq<Event>, now: int, s: int, k: int, w: int)
    requires Clocked(es, now) && Prompt(es, s) && FiveTick(es, s, k)
    requires w + FIVE_MINUTES == Truncate(s, FIVE_MINUTES) + k * FIVE_MINUTES
    ensures FiveDone(es, w)
  {
    hide Clocked, Prompt, Quiet;
    var i: nat :| i < |es| && es[i].Tick5? && OnTime(es[i].now, s, FIVE_MINUTES, k);
    OnTimeIff(es[i].now, s, FIVE_MINUTES, k);
    TruncateFacts(s, FIVE_MINUTES);
    PromptQuiet(es, now, s, i, w, w + FIVE_MINUTES);
  }

  /** What ran on time before event `g` read the clock comes before it. */
  lemma FiveTickBefore(es: seq<Event>, now: int, s: int, k: int, g: nat)
    requires Clocked(es, now) && FiveTick(es, s, k) && g < |es|
    requires Truncate(s, FIVE_MINUTES) + (k + 1) * FIVE_MINUTES <= es[g].now
    ensures FiveTick(es[..g], s, k)
  {
    hide Truncate;
    var i :| 0 <= i < |es| && es[i].Tick5? && OnTime(es[i].now, s, FIVE_MINUTES, k);
    assert i < g;
    assert es[..g][i] == es[i];
  }

  lemma HourTickBefore(es: seq<Event>, now: int, s: int, j: int, g: nat)
    requires Clocked(es, now) && HourTick(es, s, j) && g < |es|
    requires Truncate(s, HOUR) + (j + 1) * HOUR <= es[g].now
    ensures HourTick(es[..g], s, j)
  {
    hide Truncate;
    var i :| 0 <= i < |es| && es[i].TickHour? && OnTime(es[i].now, s, HOUR, j);
    assert i < g;
    assert es[..g][i] == es[i];
  }

  lemma PrefixKeeps(es: seq<Event>, now: int, s: int, g: nat)
    requires Clocked(es, now) && Prompt(es, s) && g < |es|
    ensures Clocked(es[..g], es[g].now) && Prompt(es[..g], s)
  {
    assert forall i | 0 <= i < g :: es[..g][i] == es[i];
  }

  /** Tick `BucketTick` of the second hour on is one of those that ran, five minutes before the hourly tick. */
  lemma BucketTickInTime(s: int, j: int, i: int)
    requires j >= 2 && 0 <= i < 12 && (s + EPOCH) % HOUR >= FIVE_MINUTES
    ensures 1 <= BucketTick(s, j, i) < 12 * j
    ensures Truncate(s, FIVE_MINUTES) + (BucketTick(s, j, i) + 1) * FIVE_MINUTES <= s + j * HOUR
  {
    var m := (s + EPOCH) % HOUR / FIVE_MINUTES;
    assert 1 <= m <= 11;
  }

  lemma HourWindowAligned(s: int, j: int)
    ensures HourWindow(s, j) % HOUR == 0
  {
    hide Truncate;
    TruncateFacts(s, HOUR);
    var q := Truncate(s, HOUR) / 3600;
    assert HourWindow(s, j) == 3600 * (q + j - 1);
  }

  /** What an on-time hourly tick reads and aggregates. */
  lemma HourTickFacts(now: int, s: int, j: int)
    requires OnTime(now, s, HOUR, j)
    ensures Truncate(now, HOUR) == HourWindow(s, j) + HOUR && HourWindow(s, j) % HOUR == 0
    ensures s + j * HOUR <= now && HourWindow(s, j) + HOUR + (s + EPOCH) % FIVE_MINUTES <= now
  {
    hide Truncate;
    OnTimeIff(now, s, HOUR, j);
    HourWindowAligned(s, j);
    PhaseIs(s);
    PhaseOrder(s);
  }

  lemma PhaseIs(s: int)
    ensures (s + EPOCH) % HOUR == s - Truncate(s, HOUR)
  {
  }

  lemma BucketsAligned(h: int, i: int)
    requires h % HOUR == 0
    ensures (h + i * FIVE_MINUTES) % FIVE_MINUTES == 0
  {
    assert h + i * 300 == 300 * (12 * (h / 3600) + i);
  }

  /** Started five minutes or more into an hour, with every step inside its period and prompt samples, each
      hourly tick from the second on completes its hour. */
  lemma ScheduledHour(es: seq<Event>, now: int, s: int, j: int)
    requires Clocked(es, now) && Prompt(es, s) && j >= 2
    requires (s + EPOCH) % HOUR >= FIVE_MINUTES
    requires FiveTicks(es, s, 12 * j - 1) && HourTick(es, s, j)
    ensures HourDone(es, HourWindow(s, j))
  {
    hide Clocked, Prompt, Quiet, FiveDone, FiveTick, BucketTick, FiveTicks, Truncate, OnTime, HourWindow;
    var h := HourWindow(s, j);
    var g: nat :| g < |es| && es[g].TickHour? && OnTime(es[g].now, s, HOUR, j);
    HourTickFacts(es[g].now, s, j);
    forall i | 0 <= i < 12 ensures FiveDone(es[..g], h + i * FIVE_MINUTES) {
      ScheduledBucket(es, now, s, j, g, i);
    }
    BucketsAligned(h, 12);
    PromptQuiet(es, now, s, g, h, h + HOUR);
    assert HourDoneAt(es, h, g);
  }

  lemma PhaseOrder(s: int)
    ensures (s + EPOCH) % FIVE_MINUTES <= (s + EPOCH) % HOUR
  {
    RemainderOfRemainder(s + EPOCH);
  }

  lemma RemainderOfRemainder(x: int)
    ensures x % FIVE_MINUTES == x % HOUR % FIVE_MINUTES
  {
    var q, r := x / 3600, x % 3600;
    assert x == 300 * (12 * q + r / 300) + r % 300;
  }

  lemma ScheduledBucket(es: seq<Event>, now: int, s: int, j: int, g: nat, i: int)
    requires Clocked(es, now) && Prompt(es, s) && j >= 2 && 0 <= i < 12
    requires (s + EPOCH) % HOUR >= FIVE_MINUTES
    requires FiveTicks(es, s, 12 * j - 1) && g < |es| && s + j * HOUR <= es[g].now
    ensures FiveDone(es[..g], HourWindow(s, j) + i * FIVE_MINUTES)
  {
    hide Clocked, Prompt, FiveDone, FiveTick, BucketTick, Truncate;
    var k := BucketTick(s, j, i);
    BucketTickInTime(s, j, i);
    BucketTickIs(s, j, i, k);
    PrefixKeeps(es, now, s, g);
    FiveTickBefore(es, now, s, k, g);
    TickDoesBucket(es[..g], es[g].now, s, k, HourWindow(s, j) + i * FIVE_MINUTES);
  }

  // ---------------------------------------------------------------- the race for the last bucket

  /** Every 5-minute step is some on-time tick of the 5-minute ticker. */
  ghost predicate FiveOnly(es: seq<Event>, s: int) {
    forall i | 0 <= i < |es| && es[i].Tick5? :: exists k :: OnTime(es[i].now, s, FIVE_MINUTES, k)
  }

  /** Event `g` is the one step of hourly tick `j`. */
  ghost predicate HourStepAt(es: seq<Event>, s: int, j: int, g: nat) {
    && g < |es| && es[g].TickHour? && OnTime(es[g].now, s, HOUR, j)
    && forall i | 0 <= i < |es| && es[i].TickHour? && Truncate(es[i].now, HOUR) == Truncate(es[g].now, HOUR) :: i == g
  }

  /** Started less than five minutes into an hour, the tick of an hour's last bucket coincides with the hourly
      one: its number is `12 * j`. */
  lemma LastBucketCoincides(s: int, j: int)
    requires (s + EPOCH) % HOUR < FIVE_MINUTES
    ensures Truncate(s, FIVE_MINUTES) == Truncate(s, HOUR)
    ensures HourWindow(s, j) + HOUR == Truncate(s, FIVE_MINUTES) + 12 * j * FIVE_MINUTES
  {
    RemainderOfRemainder(s + EPOCH);
  }

  /** The eleven buckets before the last are done when the hourly step runs. */
  lemma ElevenBuckets(es: seq<Event>, now: int, s: int, j: int, g: nat, i: int)
    requires Clocked(es, now) && Prompt(es, s) && j >= 2 && 0 <= i < 11
    requires (s + EPOCH) % HOUR < FIVE_MINUTES
    requires FiveTicks(es, s, 12 * j - 1) && g < |es| && s + j * HOUR <= es[g].now
    ensures FiveDone(es[..g], HourWindow(s, j) + i * FIVE_MINUTES)
  {
    hide Clocked, Prompt, FiveDone, FiveTick, Truncate;
    var k := 12 * (j - 1) + i + 1;
    LastBucketCoincides(s, j);
    TruncateFacts(s, FIVE_MINUTES);
    PrefixKeeps(es, now, s, g);
    FiveTickBefore(es, now, s, k, g);
    TickDoesBucket(es[..g], es[g].now, s, k, HourWindow(s, j) + i * FIVE_MINUTES);
  }

  /** The coincident 5-minute step came first: the hour is done. */
  lemma RaceWon(es: seq<Event>, now: int, s: int, j: int, g: nat)
    requires Clocked(es, now) && Prompt(es, s) && j >= 2 && HourStepAt(es, s, j, g)
    requires (s + EPOCH) % HOUR < FIVE_MINUTES && FiveTicks(es, s, 12 * j - 1)
    requires FiveTick(es[..g], s, 12 * j)
    ensures HourDone(es, HourWindow(s, j))
  {
    hide Clocked, Prompt, Quiet, FiveDone, FiveTicks, FiveTick, Truncate, OnTime, HourWindow;
    var h := HourWindow(s, j);
    HourTickFacts(es[g].now, s, j);
    forall i | 0 <= i < 12 ensures FiveDone(es[..g], h + i * FIVE_MINUTES) {
      if i < 11 { ElevenBuckets(es, now, s, j, g, i); } else { TwelfthBucket(es, now, s, j, g); }
    }
    BucketsAligned(h, 12);
    PromptQuiet(es, now, s, g, h, h + HOUR);
    assert HourDoneAt(es, h, g);
  }

  lemma TwelfthBucket(es: seq<Event>, now: int, s: int, j: int, g: nat)
    requires Clocked(es, now) && Prompt(es, s) && g < |es| && FiveTick(es[..g], s, 12 * j)
    requires (s + EPOCH) % HOUR < FIVE_MINUTES
    ensures FiveDone(es[..g], HourWindow(s, j) + 11 * FIVE_MINUTES)
  {
    hide Clocked, Prompt, FiveDone, FiveTick, Truncate, HourWindow;
    PrefixKeeps(es, now, s, g);
    LastBucketCoincides(s, j);
    TickDoesBucket(es[..g], es[g].now, s, 12 * j, HourWindow(s, j) + 11 * FIVE_MINUTES);
  }

  /** The hourly step came first: the hour's row lacks the last bucket. */
  lemma RaceLost(es: seq<Event>, now: int, s: int, j: int, g: nat)
    requires Clocked(es, now) && Prompt(es, s) && FiveOnly(es, s) && j >= 2 && HourStepAt(es, s, j, g)
    requires (s + EPOCH) % HOUR < FIVE_MINUTES && FiveTicks(es, s, 12 * j - 1)
    requires !FiveTick(es[..g], s, 12 * j)
    ensures ShortHour(es, HourWindow(s, j), 11)
  {
    hide Clocked, Prompt, Quiet, FiveDone, FiveTicks, FiveTick, FiveOnly, NoFive, Truncate, OnTime, HourWindow;
    var h := HourWindow(s, j);
    HourTickFacts(es[g].now, s, j);
    forall i | 0 <= i < 11 ensures FiveDone(es[..g], h + i * FIVE_MINUTES) {
      ElevenBuckets(es, now, s, j, g, i);
    }
    NoLastBucket(es, s, j, g);
    BucketsAligned(h, 11);
    PromptQuiet(es, now, s, g, h, h + 11 * FIVE_MINUTES);
    assert ShortHourAt(es, h, 11, g);
  }

  lemma NoLastBucket(es: seq<Event>, s: int, j: int, g: nat)
    requires FiveOnly(es, s) && g <= |es| && !FiveTick(es[..g], s, 12 * j)
    requires (s + EPOCH) % HOUR < FIVE_MINUTES
    ensures NoFive(es[..g], HourWindow(s, j) + 11 * FIVE_MINUTES)
  {
    hide Truncate;
    LastBucketCoincides(s, j);
    forall i | 0 <= i < g && es[i].Tick5?
      ensures Truncate(es[i].now, FIVE_MINUTES) != HourWindow(s, j) + 11 * FIVE_MINUTES + FIVE_MINUTES
    {
      var k :| OnTime(es[i].now, s, FIVE_MINUTES, k);
      OnTimeIff(es[i].now, s, FIVE_MINUTES, k);
      assert es[..g][i] == es[i];
    }
  }

  /** Started less than five minutes into an hour, with every step inside its period and prompt samples, an
      hour's row covers all twelve buckets if the coincident 5-minute step ran before the hourly one, and
      exactly the first eleven otherwise. */
  lemma ScheduledRace(es: seq<Event>, now: int, s: int, j: int, g: nat, series: Series)
    requires Clocked(es, now) && Prompt(es, s) && FiveOnly(es, s) && j >= 2 && HourStepAt(es, s, j, g)
    requires (s + EPOCH) % HOUR < FIVE_MINUTES && FiveTicks(es, s, 12 * j - 1)
    requires now - RETAIN_HOURLY <= HourWindow(s, j)
    ensures HourSlot(Run(es).hourly, Inserted(es), series, HourWindow(s, j),
                     if FiveTick(es[..g], s, 12 * j) then 12 else 11)
  {
    hide Clocked, Prompt, FiveOnly, FiveTicks, FiveTick, HourDone, ShortHour, HourSlot, Run, Inserted, HourWindow;
    if FiveTick(es[..g], s, 12 * j) {
      RaceWon(es, now, s, j, g);
      HourExact(es, now, series, HourWindow(s, j));
    } else {
      RaceLost(es, now, s, j, g);
      ShortHourExact(es, now, series, HourWindow(s, j), 11);
    }
  }

  // ---------------------------------------------------------------- the race can be lost

  /** The first `n` 5-minute steps, each right when its tick fires. */
  function Prelude(s: int, n: nat): seq<Event> { seq(n, k requires 0 <= k < n => Tick5(s + (k + 1) * FIVE_MINUTES)) }

  /** A run on schedule with one sample in the last bucket, in which the hourly step of tick `j` runs just
      before the coincident 5-minute step. */
  function LostRun(s: int, j: int, x: Sample): seq<Event>
    requires j >= 2
  {
    Prelude(s, 12 * j - 1) + [Insert(x, s + j * HOUR - FIVE_MINUTES), TickHour(s + j * HOUR), Tick5(s + j * HOUR)]
  }

  lemma LostRunAt(s: int, j: int, x: Sample)
    requires j >= 2
    ensures var es := LostRun(s, j, x);
            && |es| == 12 * j + 2
            && (forall k | 0 <= k < 12 * j - 1 :: es[k] == Tick5(s + (k + 1) * FIVE_MINUTES))
            && es[12 * j - 1] == Insert(x, s + j * HOUR - FIVE_MINUTES)
            && es[12 * j] == TickHour(s + j * HOUR) && es[12 * j + 1] == Tick5(s + j * HOUR)
  {
  }

  lemma FiredOnTime(s: int, period: int, k: int)
    requires period > 0
    ensures OnTime(s + k * period, s, period, k)
  {
    hide Truncate;
    TruncateBounds(s, period);
    assert (k + 1) * period == k * period + period;
  }

  lemma LostRunClocked(s: int, j: int, x: Sample)
    requires s >= 0 && j >= 2
    ensures Clocked(LostRun(s, j, x), s + j * HOUR)
  {
    hide LostRun;
    LostRunAt(s, j, x);
  }

  lemma AlignedTruncates(t: int)
    requires t % FIVE_MINUTES == 0
    ensures Truncate(t, FIVE_MINUTES) == t
  {
    hide Truncate;
    TruncateFacts(t, FIVE_MINUTES);
    var a, b := t / 300, Truncate(t, FIVE_MINUTES) / 300;
    assert t == 300 * a && Truncate(t, FIVE_MINUTES) == 300 * b;
  }

  /** The sample of the last bucket arrives before that bucket's tick. */
  lemma LastSampleInTime(s: int, j: int, at: int)
    requires (s + EPOCH) % HOUR < FIVE_MINUTES && at == HourWindow(s, j) + 11 * FIVE_MINUTES
    ensures s + j * HOUR - FIVE_MINUTES < Truncate(at, FIVE_MINUTES) + FIVE_MINUTES + (s + EPOCH) % FIVE_MINUTES
  {
    hide Truncate;
    HourWindowAligned(s, j);
    BucketsAligned(HourWindow(s, j), 11);
    AlignedTruncates(at);
    PhaseIs(s);
    ShortPhase(s + EPOCH);
  }

  lemma ShortPhase(x: int)
    requires x % HOUR < FIVE_MINUTES
    ensures x % FIVE_MINUTES == x % HOUR
  {
    RemainderOfRemainder(x);
  }

  lemma LostRunPrompt(s: int, j: int, x: Sample)
    requires j >= 2 && (s + EPOCH) % HOUR < FIVE_MINUTES && x.at == HourWindow(s, j) + 11 * FIVE_MINUTES
    ensures Prompt(LostRun(s, j, x), s)
  {
    hide Truncate, LostRun, HourWindow;
    LostRunAt(s, j, x);
    LastSampleInTime(s, j, x.at);
  }

  lemma LostRunTicks(s: int, j: int, x: Sample)
    requires j >= 2
    ensures FiveOnly(LostRun(s, j, x), s) && FiveTicks(LostRun(s, j, x), s, 12 * j - 1)
  {
    hide OnTime, LostRun;
    var es := LostRun(s, j, x);
    LostRunAt(s, j, x);
    forall k { FiredOnTime(s, FIVE_MINUTES, k); }
    forall i | 0 <= i < |es| && es[i].Tick5? ensures exists k :: OnTime(es[i].now, s, FIVE_MINUTES, k) {
      assert OnTime(es[i].now, s, FIVE_MINUTES, if i < 12 * j then i + 1 else 12 * j);
    }
    forall k | 1 <= k <= 12 * j - 1 ensures FiveTick(es, s, k) {
      assert es[k - 1].Tick5? && OnTime(es[k - 1].now, s, FIVE_MINUTES, k);
    }
  }

  lemma LostRunHour(s: int, j: int, x: Sample)
    requires j >= 2
    ensures HourStepAt(LostRun(s, j, x), s, j, 12 * j)
  {
    hide Truncate, OnTime, LostRun;
    LostRunAt(s, j, x);
    FiredOnTime(s, HOUR, j);
  }

  lemma LostRunLoses(s: int, j: int, x: Sample)
    requires j >= 2
    ensures 12 * j <= |LostRun(s, j, x)| && !FiveTick(LostRun(s, j, x)[..12 * j], s, 12 * j)
  {
    hide Truncate, LostRun;
    LostRunAt(s, j, x);
  }

  lemma LostRunInserts(s: int, j: int, x: Sample)
    requires j >= 2
    ensures Inserted(LostRun(s, j, x)) == [x]
  {
    hide Truncate, Run, Step;
    var pre, e := Prelude(s, 12 * j - 1), Insert(x, s + j * HOUR - FIVE_MINUTES);
    var f, g := TickHour(s + j * HOUR), Tick5(s + j * HOUR);
    NoInserts(pre);
    assert LostRun(s, j, x) == pre + [e] + [f] + [g];
    RunStep(pre, e);
    RunStep(pre + [e], f);
    RunStep(pre + [e] + [f], g);
  }

  lemma {:induction false} NoInserts(es: seq<Event>)
    requires forall i | 0 <= i < |es| :: !es[i].Insert?
    ensures Inserted(es) == []
  {
    if es != [] { NoInserts(es[..|es| - 1]); }
  }

  /** The race can be lost, and a sample with it: on some on-time, prompt run the hour has a sample and no row. */
  lemma RaceCanBeLost(s: int, j: int, x: Sample) returns (es: seq<Event>, g: nat)
    requires s >= 0 && j >= 2 && (s + EPOCH) % HOUR < FIVE_MINUTES
    requires x.at == HourWindow(s, j) + 11 * FIVE_MINUTES
    ensures Clocked(es, s + j * HOUR) && Prompt(es, s) && FiveOnly(es, s)
    ensures FiveTicks(es, s, 12 * j - 1) && HourStepAt(es, s, j, g)
    ensures Values(Inserted(es), x.series, HourWindow(s, j), HourWindow(s, j) + HOUR) == [x.value]
    ensures Key(x.series, HourWindow(s, j)) !in Run(es).hourly
  {
    hide Clocked, Prompt, FiveOnly, FiveTicks, FiveTick, HourStepAt, Run, LostRun, Faithful, Truncate, HourWindow,
         Inserted;
    es, g := LostRun(s, j, x), 12 * j;
    LostRunAt(s, j, x);
    LostRunClocked(s, j, x);
    LostRunPrompt(s, j, x);
    LostRunTicks(s, j, x);
    LostRunHour(s, j, x);
    LostRunLoses(s, j, x);
    LostRunInserts(s, j, x);
    RecentWindow(s, j);
    ScheduledRace(es, s + j * HOUR, s, j, g, x.series);
    OneSample(x, HourWindow(s, j), HourWindow(s, j) + 11 * FIVE_MINUTES);
    OneSample(x, HourWindow(s, j), HourWindow(s, j) + HOUR);
  }

  lemma RecentWindow(s: int, j: int)
    ensures s + j * HOUR - RETAIN_HOURLY <= HourWindow(s, j)
  {
    TruncateFacts(s, HOUR);
  }

  lemma OneSample(x: Sample, lo: int, hi: int)
    ensures Values([x], x.series, lo, hi) == if lo <= x.at < hi then [x.value] else []
  {
    assert [x][..0] == [];
  }
}
