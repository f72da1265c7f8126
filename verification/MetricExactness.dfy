/** What the tiers contain: the exact extremes of the raw samples, averages between them, and the
    raw mean when the buckets are equally filled; retention deletes never interfere. */
module MetricExactness {
  import opened Arithmetic
  import opened MetricTiers

  // ---------------------------------------------------------------- windows of the log

  lemma {:induction false} ValuesIn(rows: seq<Sample>, s: Series, lo: int, hi: int, v: real)
    ensures v in Values(rows, s, lo, hi) <==>
              exists i :: 0 <= i < |rows| && rows[i].series == s && lo <= rows[i].at < hi && rows[i].value == v
  {
    if rows != [] {
      var n := |rows| - 1;
      ValuesIn(rows[..n], s, lo, hi, v);
      assert forall i | 0 <= i < n :: rows[..n][i] == rows[i];
    }
  }

  lemma ValuesStep(rows: seq<Sample>, x: Sample, s: Series, lo: int, hi: int)
    ensures Values(rows + [x], s, lo, hi) ==
            if x.series == s && lo <= x.at < hi then Values(rows, s, lo, hi) + [x.value] else Values(rows, s, lo, hi)
  {
    assert (rows + [x])[..|rows|] == rows;
  }

  lemma SumStep(vs: seq<real>, v: real)
    ensures Sum(vs + [v]) == Sum(vs) + v
  {
    assert (vs + [v])[..|vs|] == vs;
  }

  /** A window splits into two halves: counts and sums add up. */
  lemma {:induction false} ValuesSplit(rows: seq<Sample>, s: Series, lo: int, mid: int, hi: int)
    requires lo <= mid <= hi
    ensures |Values(rows, s, lo, hi)| == |Values(rows, s, lo, mid)| + |Values(rows, s, mid, hi)|
    ensures Sum(Values(rows, s, lo, hi)) == Sum(Values(rows, s, lo, mid)) + Sum(Values(rows, s, mid, hi))
    ensures forall v :: v in Values(rows, s, lo, hi) <==> v in Values(rows, s, lo, mid) || v in Values(rows, s, mid, hi)
  {
    if rows != [] {
      var n := |rows| - 1;
      ValuesSplit(rows[..n], s, lo, mid, hi);
      SumStep(Values(rows[..n], s, lo, hi), rows[n].value);
      SumStep(Values(rows[..n], s, lo, mid), rows[n].value);
      SumStep(Values(rows[..n], s, mid, hi), rows[n].value);
    }
  }

  lemma {:induction false} ValuesEmpty(rows: seq<Sample>, s: Series, lo: int)
    ensures Values(rows, s, lo, lo) == []
  {
    if rows != [] { ValuesEmpty(rows[..|rows| - 1], s, lo); }
  }

  /** Two tables agree on a key. */
  ghost predicate SameAt(t: Table, u: Table, k: Key) {
    (k in t <==> k in u) && (k in t ==> u[k] == t[k])
  }

  // ---------------------------------------------------------------- combining exact slots

  lemma {:induction false} SumBounds(vs: seq<real>, lo: real, hi: real)
    requires forall i | 0 <= i < |vs| :: lo <= vs[i] <= hi
    ensures lo * (|vs| as real) <= Sum(vs) <= hi * (|vs| as real)
  {
    if vs != [] {
      var n := |vs| - 1;
      SumBounds(vs[..n], lo, hi);
      assert (|vs| as real) == (n as real) + 1.0;
      assert lo * (|vs| as real) == lo * (n as real) + lo;
      assert hi * (|vs| as real) == hi * (n as real) + hi;
    }
  }

  lemma DivideBounds(sum: real, n: real, lo: real, hi: real)
    requires n > 0.0 && lo * n <= sum <= hi * n
    ensures lo <= sum / n <= hi
  {
    var q := sum / n;
    assert q * n == sum;
    assert (q - lo) * n == sum - lo * n && (hi - q) * n == hi * n - sum;
    Sign(q - lo, n);
    Sign(hi - q, n);
  }

  lemma Sign(x: real, n: real)
    requires n > 0.0 && x * n >= 0.0
    ensures x >= 0.0
  {
  }

  lemma MeanBounds(vs: seq<real>, lo: real, hi: real)
    requires vs != [] && forall i | 0 <= i < |vs| :: lo <= vs[i] <= hi
    ensures lo <= Mean(vs) <= hi
  {
    SumBounds(vs, lo, hi);
    DivideBounds(Sum(vs), |vs| as real, lo, hi);
  }

  /** A summary faithful to the values it stands for. */
  predicate Faithful(r: Summary, vs: seq<real>)
    requires vs != []
  {
    r.min == Min(vs) && r.max == Max(vs) && r.min <= r.avg <= r.max
  }

  /** A slot of a table holds a faithful summary of the log, and nothing when the log is empty. */
  ghost predicate Exact(t: Table, log: seq<Sample>, s: Series, at: int, width: int) {
    var vs := Values(log, s, at, at + width);
    && (Key(s, at) in t <==> vs != [])
    && (vs != [] ==> Faithful(t[Key(s, at)], vs))
  }

  lemma SummariseFaithful(vs: seq<real>)
    requires vs != []
    ensures Faithful(Summarise(vs), vs)
  {
    MeanBounds(vs, Min(vs), Max(vs));
  }

  /** The rows of a range stand for the values of that range. */
  ghost predicate Covers(rows: seq<Summary>, vs: seq<real>) {
    && (rows == [] <==> vs == [])
    && (rows != [] ==> Min(Mins(rows)) == Min(vs) && Max(Maxs(rows)) == Max(vs))
    && forall i | 0 <= i < |rows| :: rows[i].min <= rows[i].avg <= rows[i].max
  }

  lemma MinOfUnion(vs: seq<real>, a: seq<real>, b: seq<real>)
    requires vs != [] && forall v :: v in vs <==> v in a || v in b
    ensures a != [] && b != [] ==> Min(vs) == if Min(a) <= Min(b) then Min(a) else Min(b)
    ensures a == [] ==> b != [] && Min(vs) == Min(b)
    ensures b == [] ==> a != [] && Min(vs) == Min(a)
  {
    assert Min(vs) in vs;
    if a != [] { assert Min(a) in vs; }
    if b != [] { assert Min(b) in vs; }
  }

  lemma MaxOfUnion(vs: seq<real>, a: seq<real>, b: seq<real>)
    requires vs != [] && forall v :: v in vs <==> v in a || v in b
    ensures a != [] && b != [] ==> Max(vs) == if Max(a) >= Max(b) then Max(a) else Max(b)
    ensures a == [] ==> b != [] && Max(vs) == Max(b)
    ensures b == [] ==> a != [] && Max(vs) == Max(a)
  {
    assert Max(vs) in vs;
    if a != [] { assert Max(a) in vs; }
    if b != [] { assert Max(b) in vs; }
  }

  lemma CoversAppend(rows: seq<Summary>, r: Summary, vs: seq<real>, a: seq<real>, b: seq<real>)
    requires Covers(rows, a) && b != [] && Faithful(r, b)
    requires forall v :: v in vs <==> v in a || v in b
    ensures Covers(rows + [r], vs)
  {
    hide Min, Max;
    assert b[0] in vs;
    MinOfUnion(vs, a, b);
    MaxOfUnion(vs, a, b);
    MinsAppend(rows, r);
    MaxsAppend(rows, r);
    NothingCovers(rows, a);
  }

  lemma NothingCovers(rows: seq<Summary>, vs: seq<real>)
    requires Covers(rows, vs)
    ensures rows == [] <==> vs == []
  {
  }

  lemma MinsAppend(rows: seq<Summary>, r: Summary)
    ensures Min(Mins(rows + [r])) == if rows != [] && Min(Mins(rows)) <= r.min then Min(Mins(rows)) else r.min
  {
    assert Mins(rows + [r]) == Mins(rows) + [r.min];
    assert [r.min][0] == r.min && Min([r.min]) == r.min;
    MinOfUnion(Mins(rows) + [r.min], Mins(rows), [r.min]);
  }

  lemma MaxsAppend(rows: seq<Summary>, r: Summary)
    ensures Max(Maxs(rows + [r])) == if rows != [] && Max(Maxs(rows)) >= r.max then Max(Maxs(rows)) else r.max
  {
    assert Maxs(rows + [r]) == Maxs(rows) + [r.max];
    assert [r.max][0] == r.max && Max([r.max]) == r.max;
    MaxOfUnion(Maxs(rows) + [r.max], Maxs(rows), [r.max]);
  }

  lemma CoversSame(rows: seq<Summary>, vs: seq<real>, a: seq<real>)
    requires Covers(rows, a) && |vs| == |a| && forall v :: v in vs <==> v in a
    ensures Covers(rows, vs)
  {
    if vs != [] {
      MinOfUnion(vs, a, []);
      MaxOfUnion(vs, a, []);
    }
  }

  /** A table has keys of a series only at multiples of `width` from `lo`. */
  ghost predicate AlignedKeys(t: Table, s: Series, lo: int, width: int)
    requires width > 0
  {
    forall at | Key(s, at) in t :: (at - lo) % width == 0
  }

  lemma {:induction false} RowsSkip(t: Table, s: Series, lo: int, mid: int, hi: int)
    requires lo <= mid <= hi
    requires forall at | mid <= at < hi :: Key(s, at) !in t
    ensures Rows(t, s, lo, hi) == Rows(t, s, lo, mid)
    decreases hi - mid
  {
    if mid < hi { RowsSkip(t, s, lo, mid, hi - 1); }
  }

  lemma RowsSlot(t: Table, s: Series, lo: int, width: int, k: nat)
    requires width > 0 && AlignedKeys(t, s, lo, width)
    ensures var at := lo + k * width;
            Rows(t, s, lo, at + width) == Rows(t, s, lo, at) + if Key(s, at) in t then [t[Key(s, at)]] else []
  {
    var at := lo + k * width;
    assert at >= lo;
    forall b | at < b < at + width ensures Key(s, b) !in t {
      NotAligned(b - lo, width, k);
    }
    RowsSkip(t, s, lo, at + 1, at + width);
  }

  lemma NotAligned(d: int, width: int, k: nat)
    requires width > 0 && k * width < d < k * width + width
    ensures d % width != 0
  {
    var q := d / width;
    assert d == q * width + d % width;
    assert (q - k) * width == q * width - k * width;
    SmallMultiple(q - k, width);
  }

  /** The slot an aligned key belongs to. */
  lemma SlotIndex(lo: int, width: int, at: int, n: nat, k: nat) returns (i: nat)
    requires width > 0 && (at - lo) % width == 0 && lo + n * width <= at < lo + k * width
    ensures n <= i < k && at == lo + i * width
  {
    i := (at - lo) / width;
    assert at - lo == i * width;
    MultipleOrder(i + 1, n, width);
    MultipleOrder(k, i, width);
  }

  lemma MultipleOrder(i: int, j: int, d: int)
    requires d > 0
    ensures i <= j ==> i * d <= j * d
    ensures i < j ==> i * d + d <= j * d
  {
    assert (j - i) * d == j * d - i * d;
    if i < j { AtLeast(j - i, d); }
  }

  /** Slots without a key at the end of a range contribute no rows. */
  lemma RowsShort(t: Table, s: Series, lo: int, width: int, n: nat, k: nat)
    requires n <= k && width > 0 && AlignedKeys(t, s, lo, width)
    requires forall i | n <= i < k :: Key(s, lo + i * width) !in t
    ensures Rows(t, s, lo, lo + k * width) == Rows(t, s, lo, lo + n * width)
  {
    hide Rows;
    forall at | lo + n * width <= at < lo + k * width ensures Key(s, at) !in t {
      if Key(s, at) in t {
        var i := SlotIndex(lo, width, at, n, k);
        assert false;
      }
    }
    MultipleOrder(0, n, width);
    MultipleOrder(n, k, width);
    RowsSkip(t, s, lo, lo + n * width, lo + k * width);
  }

  lemma SameRows(into: Table, source: Table, s: Series, lo: int, mid: int, hi: int)
    requires Rows(source, s, lo, hi) == Rows(source, s, lo, mid) && Key(s, lo) !in into
    ensures SameAt(Aggregated(into, source, lo, mid), Aggregated(into, source, lo, hi), Key(s, lo))
  {
    hide Rows, Aggregated, Combine;
    AggregatedAt(into, source, s, lo, mid);
    AggregatedAt(into, source, s, lo, hi);
  }

  lemma NothingCovered(t: Table, log: seq<Sample>, s: Series, lo: int)
    ensures Covers(Rows(t, s, lo, lo), Values(log, s, lo, lo))
  {
    ValuesEmpty(log, s, lo);
  }

  /** If `k` consecutive slots are exact, the rows over them cover the log over them. */
  lemma {:induction false} SlotsCover(t: Table, log: seq<Sample>, s: Series, lo: int, width: int, k: nat)
    requires width > 0 && AlignedKeys(t, s, lo, width)
    requires forall i | 0 <= i < k :: Exact(t, log, s, lo + i * width, width)
    ensures Covers(Rows(t, s, lo, lo + k * width), Values(log, s, lo, lo + k * width))
  {
    hide Covers, Faithful, Values, Rows, Min, Max;
    if k == 0 {
      NothingCovered(t, log, s, lo);
    } else {
      var at := lo + (k - 1) * width;
      assert lo + k * width == at + width;
      assert lo <= at;
      SlotsCover(t, log, s, lo, width, k - 1);
      RowsSlot(t, s, lo, width, k - 1);
      ValuesSplit(log, s, lo, at, at + width);
      assert Exact(t, log, s, lo + (k - 1) * width, width);
      var a, b, vs := Values(log, s, lo, at), Values(log, s, at, at + width), Values(log, s, lo, at + width);
      if b != [] {
        CoversAppend(Rows(t, s, lo, at), t[Key(s, at)], vs, a, b);
      } else {
        assert Rows(t, s, lo, at) + [] == Rows(t, s, lo, at);
        CoversSame(Rows(t, s, lo, at), vs, a);
      }
    }
  }

  lemma AvgsBetween(rows: seq<Summary>)
    requires rows != [] && forall i | 0 <= i < |rows| :: rows[i].min <= rows[i].avg <= rows[i].max
    ensures Min(Mins(rows)) <= Mean(Avgs(rows)) <= Max(Maxs(rows))
  {
    var lo, hi := Min(Mins(rows)), Max(Maxs(rows));
    forall i | 0 <= i < |rows| ensures lo <= Avgs(rows)[i] <= hi {
      assert Mins(rows)[i] == rows[i].min && Maxs(rows)[i] == rows[i].max;
    }
    MeanBounds(Avgs(rows), lo, hi);
  }

  /** Aggregating exact slots into a table with no stale row gives an exact slot one tier up. */
  lemma AggregateExact(into: Table, source: Table, log: seq<Sample>, s: Series, lo: int, width: int, k: nat)
    requires width > 0 && AlignedKeys(source, s, lo, width)
    requires forall i | 0 <= i < k :: Exact(source, log, s, lo + i * width, width)
    requires Key(s, lo) in into ==> Values(log, s, lo, lo + k * width) != []
    ensures Exact(Aggregated(into, source, lo, lo + k * width), log, s, lo, k * width)
  {
    hide Exact, Covers, Faithful, Min, Max, Mean, Values, Rows, AlignedKeys, Aggregated, Combine;
    var rows, vs := Rows(source, s, lo, lo + k * width), Values(log, s, lo, lo + k * width);
    SlotsCover(source, log, s, lo, width, k);
    RowsNonEmpty(source, s, lo, lo + k * width);
    AggregatedAt(into, source, s, lo, lo + k * width);
    NothingCovers(rows, vs);
    CoveredExact(Aggregated(into, source, lo, lo + k * width), log, s, lo, k * width, rows);
  }

  lemma AggregatedAt(into: Table, source: Table, s: Series, lo: int, hi: int)
    ensures var rows := Rows(source, s, lo, hi); var t := Aggregated(into, source, lo, hi);
            && (rows != [] ==> Key(s, lo) in t && t[Key(s, lo)] == Combine(rows))
            && (rows == [] ==> (Key(s, lo) in t <==> Key(s, lo) in into))
  {
    hide Rows, Combine;
    RowsNonEmpty(source, s, lo, hi);
  }

  lemma CoveredExact(t: Table, log: seq<Sample>, s: Series, lo: int, width: int, rows: seq<Summary>)
    requires Covers(rows, Values(log, s, lo, lo + width))
    requires rows != [] ==> Key(s, lo) in t && t[Key(s, lo)] == Combine(rows)
    requires rows == [] ==> Key(s, lo) !in t
    ensures Exact(t, log, s, lo, width)
  {
    hide Values, Min, Max, Mean;
    if rows != [] { AvgsBetween(rows); }
  }

  // ---------------------------------------------------------------- means

  /** A slot of a table is the summary of its values, mean included. */
  ghost predicate Precise(t: Table, log: seq<Sample>, s: Series, at: int, width: int) {
    var vs := Values(log, s, at, at + width);
    && (Key(s, at) in t <==> vs != [])
    && (vs != [] ==> t[Key(s, at)] == Summarise(vs))
  }

  lemma PreciseIsExact(t: Table, log: seq<Sample>, s: Series, at: int, width: int)
    requires Precise(t, log, s, at, width)
    ensures Exact(t, log, s, at, width)
  {
    hide Values, Summarise, Faithful;
    var vs := Values(log, s, at, at + width);
    if vs != [] { SummariseFaithful(vs); }
  }

  /** All slots that hold samples hold equally many. */
  ghost predicate Even(log: seq<Sample>, s: Series, lo: int, width: int, k: nat) {
    forall i, j | 0 <= i < k && 0 <= j < k ::
      var a := Values(log, s, lo + i * width, lo + i * width + width);
      var b := Values(log, s, lo + j * width, lo + j * width + width);
      a != [] && b != [] ==> |a| == |b|
  }

  /** Every non-empty slot holds `c` samples. */
  ghost predicate Filled(log: seq<Sample>, s: Series, lo: int, width: int, k: nat, c: nat) {
    forall i | 0 <= i < k ::
      Values(log, s, lo + i * width, lo + i * width + width) != [] ==>
        |Values(log, s, lo + i * width, lo + i * width + width)| == c
  }

  lemma EvenFilled(log: seq<Sample>, s: Series, lo: int, width: int, k: nat) returns (c: nat)
    requires Even(log, s, lo, width, k)
    ensures c > 0 && Filled(log, s, lo, width, k, c)
  {
    hide Values;
    c := 1;
    var i := 0;
    while i < k
      invariant i <= k && c > 0
      invariant forall j | 0 <= j < i :: Values(log, s, lo + j * width, lo + j * width + width) != [] ==>
                                           |Values(log, s, lo + j * width, lo + j * width + width)| == c
    {
      if Values(log, s, lo + i * width, lo + i * width + width) != [] {
        c := |Values(log, s, lo + i * width, lo + i * width + width)|;
      }
      i := i + 1;
    }
  }

  lemma MeanTimes(vs: seq<real>)
    requires vs != []
    ensures Mean(vs) * (|vs| as real) == Sum(vs)
  {
  }

  /** Multiplication under a name, which keeps products out of the proofs that only move them around. */
  function Product(c: nat, x: real): real {
    (c as real) * x
  }

  lemma TimesSum(c: nat, x: real, y: real)
    ensures Product(c, x + y) == Product(c, x) + Product(c, y)
  {
  }

  lemma TimesMean(b: seq<real>, avg: real, c: nat)
    requires b != [] && |b| == c && avg == Mean(b)
    ensures Product(c, avg) == Sum(b)
  {
    hide Mean, Sum;
    MeanTimes(b);
  }

  lemma ScaledCount(c: nat, n: nat)
    ensures c * (n + 1) == c * n + c
  {
  }

  /** The values are `c` times as many as the averages, and sum to `c` times as much. */
  ghost predicate Scaled(vs: seq<real>, avgs: seq<real>, c: nat) {
    |vs| == c * |avgs| && Sum(vs) == Product(c, Sum(avgs))
  }

  lemma ScaledAppend(avgs: seq<real>, avg: real, a: seq<real>, b: seq<real>, vs: seq<real>, c: nat)
    requires b != [] && |b| == c && avg == Mean(b)
    requires |vs| == |a| + |b| && Sum(vs) == Sum(a) + Sum(b)
    requires Scaled(a, avgs, c)
    ensures Scaled(vs, avgs + [avg], c)
  {
    hide Mean, Sum, Product;
    SumStep(avgs, avg);
    TimesMean(b, avg, c);
    TimesSum(c, Sum(avgs), avg);
    ScaledCount(c, |avgs|);
  }

  lemma AvgsAppend(rows: seq<Summary>, r: Summary)
    ensures Avgs(rows + [r]) == Avgs(rows) + [r.avg]
  {
  }

  /** Over equally filled slots, counts and sums of the log are `c` times those of the rows' averages. */
  lemma {:induction false} SlotsMean(t: Table, log: seq<Sample>, s: Series, lo: int, width: int, k: nat, c: nat)
    requires width > 0 && AlignedKeys(t, s, lo, width)
    requires forall i | 0 <= i < k :: Precise(t, log, s, lo + i * width, width)
    requires Filled(log, s, lo, width, k, c)
    ensures Scaled(Values(log, s, lo, lo + k * width), Avgs(Rows(t, s, lo, lo + k * width)), c)
  {
    hide AlignedKeys, Values, Rows, Avgs, Mean, Sum, Min, Max, Scaled;
    if k == 0 {
      NoMeans(t, log, s, lo, c);
    } else {
      var at := lo + (k - 1) * width;
      assert lo + k * width == at + width;
      SlotsMean(t, log, s, lo, width, k - 1, c);
      RowsSlot(t, s, lo, width, k - 1);
      SlotMean(t, log, s, lo, at, width, c, Rows(t, s, lo, at));
    }
  }

  lemma SlotMean(t: Table, log: seq<Sample>, s: Series, lo: int, at: int, width: int, c: nat, rows: seq<Summary>)
    requires lo <= at && width > 0 && Precise(t, log, s, at, width)
    requires Values(log, s, at, at + width) != [] ==> |Values(log, s, at, at + width)| == c
    requires Scaled(Values(log, s, lo, at), Avgs(rows), c)
    ensures Scaled(Values(log, s, lo, at + width), Avgs(rows + if Key(s, at) in t then [t[Key(s, at)]] else []), c)
  {
    hide Values, Avgs, Mean, Sum, Min, Max, Product;
    ValuesSplit(log, s, lo, at, at + width);
    var b := Values(log, s, at, at + width);
    if b != [] {
      AvgsAppend(rows, t[Key(s, at)]);
      ScaledAppend(Avgs(rows), t[Key(s, at)].avg, Values(log, s, lo, at), b, Values(log, s, lo, at + width), c);
    } else {
      NoSum();
      assert rows + [] == rows;
    }
  }

  lemma NoSum()
    ensures Sum([]) == 0.0
  {
  }

  lemma NoMeans(t: Table, log: seq<Sample>, s: Series, lo: int, c: nat)
    ensures Scaled(Values(log, s, lo, lo), Avgs(Rows(t, s, lo, lo)), c)
  {
    ValuesEmpty(log, s, lo);
  }

  lemma MeanOfMeans(vs: seq<real>, avgs: seq<real>, c: nat)
    requires vs != [] && avgs != [] && Scaled(vs, avgs, c)
    ensures Mean(vs) == Mean(avgs)
  {
    hide Sum;
    var n, m := (|vs| as real), (|avgs| as real);
    assert n == (c as real) * m;
    MeanTimes(vs);
    MeanTimes(avgs);
    assert (Mean(vs) - Mean(avgs)) * n == Sum(vs) - (c as real) * (Mean(avgs) * m);
    Sign(Mean(vs) - Mean(avgs), n);
    Sign(Mean(avgs) - Mean(vs), n);
  }

  /** Aggregating precise, equally filled slots gives a precise slot: the average of averages is the
      mean of all samples. */
  lemma AggregatePrecise(into: Table, source: Table, log: seq<Sample>, s: Series, lo: int, width: int, k: nat)
    requires width > 0 && AlignedKeys(source, s, lo, width)
    requires forall i | 0 <= i < k :: Precise(source, log, s, lo + i * width, width)
    requires Even(log, s, lo, width, k)
    requires Key(s, lo) in into ==> Values(log, s, lo, lo + k * width) != []
    ensures Precise(Aggregated(into, source, lo, lo + k * width), log, s, lo, k * width)
  {
    hide Exact, Precise, Even, Filled, Covers, Scaled, Min, Max, Mean, Sum, Values, Rows, AlignedKeys, Aggregated,
         Combine;
    var rows, vs := Rows(source, s, lo, lo + k * width), Values(log, s, lo, lo + k * width);
    var t := Aggregated(into, source, lo, lo + k * width);
    forall i | 0 <= i < k ensures Exact(source, log, s, lo + i * width, width) {
      PreciseIsExact(source, log, s, lo + i * width, width);
    }
    AggregateExact(into, source, log, s, lo, width, k);
    SlotsCover(source, log, s, lo, width, k);
    NothingCovers(rows, vs);
    AggregatedAt(into, source, s, lo, lo + k * width);
    var c := EvenFilled(log, s, lo, width, k);
    SlotsMean(source, log, s, lo, width, k, c);
    if rows != [] {
      assert |Avgs(rows)| == |rows|;
      MeanOfMeans(vs, Avgs(rows), c);
      CombinedAvg(rows);
    }
    ExactWithMean(t, log, s, lo, k * width);
  }

  lemma CombinedAvg(rows: seq<Summary>)
    requires rows != []
    ensures Avgs(rows) != [] && Combine(rows).avg == Mean(Avgs(rows))
  {
  }

  lemma ExactWithMean(t: Table, log: seq<Sample>, s: Series, at: int, width: int)
    requires Exact(t, log, s, at, width)
    requires var vs := Values(log, s, at, at + width); vs != [] ==> Key(s, at) in t && t[Key(s, at)].avg == Mean(vs)
    ensures Precise(t, log, s, at, width)
  {
  }
}
