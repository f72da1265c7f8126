/** Exponential backoff for collectors that keep failing: the int64 doubling loop and its exact
    closed form, the spacing of attempts in a failing run, and the log lines it lets through. */
module CollectorBackoff {
  import opened Int64

  function Pow2(n: nat): (r: int)
    ensures r >= 1
  {
    if n == 0 then 1 else 2 * Pow2(n - 1)
  }

  /** `d` after at most `steps` more rounds of the doubling loop. */
  function Doubled(d: int, max: int, steps: nat): int
    decreases steps
  {
    if steps == 0 then d
    else if Wrap(d * 2) >= max then max
    else Doubled(Wrap(d * 2), max, steps - 1)
  }

  function DelayOf(base: int, max: int, failures: int): int {
    Doubled(base, max, if failures <= 1 then 0 else failures - 1)
  }

  datatype Entry = Entry(failures: nat, retryAt: int)

  type Table = map<string, Entry>

  function FailureCount(t: Table, name: string): nat {
    if name in t then t[name].failures else 0
  }

  predicate Allowed(t: Table, name: string, now: int) {
    FailureCount(t, name) == 0 || now >= t[name].retryAt
  }

  function Failed(base: int, max: int, t: Table, name: string, now: int): Table {
    var n := FailureCount(t, name) + 1;
    t[name := Entry(n, now + DelayOf(base, max, n))]
  }

  function Succeeded(t: Table, name: string): Table {
    if FailureCount(t, name) == 0 then t else t[name := Entry(0, 0)]
  }

  /** One collector's part of a collection round. */
  datatype Round = Round(name: string, now: int, works: bool)

  function Step(base: int, max: int, t: Table, r: Round): Table {
    if !Allowed(t, r.name, r.now) then t
    else if r.works then Succeeded(t, r.name)
    else Failed(base, max, t, r.name, r.now)
  }

  /** A round writes a log line iff it is the first failure of a run or the recovery that ends it. */
  predicate Logs(t: Table, r: Round) {
    Allowed(t, r.name, r.now) && r.works == (FailureCount(t, r.name) > 0)
  }

  class Backoff {
    const base: int
    const max: int
    var state: map<string, Entry>

    constructor (base: int, max: int)
      ensures this.base == base && this.max == max && state == map[]
    {
      this.base, this.max, state := base, max, map[];
    }

    method Allow(name: string, now: int) returns (ok: bool)
      ensures ok == Allowed(state, name, now)
    {
      if name !in state || state[name].failures == 0 {
        return true;
      }
      return !(now < state[name].retryAt);
    }

    method Delay(failures: int) returns (d: int)
      ensures d == DelayOf(base, max, failures)
    {
      d := base;
      var i := 1;
      while i < failures
        invariant 1 <= i && (i <= failures || i == 1)
        invariant DelayOf(base, max, failures) == Doubled(d, max, if failures <= i then 0 else failures - i)
      {
        d := Wrap(d * 2);
        if d >= max {
          return max;
        }
        i := i + 1;
      }
    }

    method Failure(name: string, now: int) returns (first: bool)
      modifies this
      ensures state == Failed(base, max, old(state), name, now)
      ensures first == (FailureCount(old(state), name) == 0)
    {
      var s := if name in state then state[name] else Entry(0, 0);
      first := s.failures == 0;
      s := s.(failures := s.failures + 1);
      var d := Delay(s.failures);
      state := state[name := s.(retryAt := now + d)];
    }

    method Success(name: string) returns (recovered: bool)
      modifies this
      ensures state == Succeeded(old(state), name)
      ensures recovered == (FailureCount(old(state), name) > 0)
    {
      if name !in state || state[name].failures == 0 {
        return false;
      }
      state := state[name := Entry(0, 0)];
      return true;
    }

    /** One collector's part of a collection round at `now`: skipped while backing off, otherwise
        attempted, with the outcome reported. `logged` says whether a log line is written. */
    method Poll(name: string, now: int, works: bool) returns (logged: bool)
      modifies this
      ensures state == Step(base, max, old(state), Round(name, now, works))
      ensures logged == Logs(old(state), Round(name, now, works))
    {
      var ok := Allow(name, now);
      if !ok {
        return false;
      }
      if works {
        logged := Success(name);
      } else {
        logged := Failure(name, now);
      }
    }
  }

  // ---------------------------------------------------------------- the delay in closed form

  /** The documented delay: `base`, doubled once per failure after the first, capped at `max`. */
  function Ideal(base: int, max: int, failures: int): int {
    if failures <= 1 then base
    else if base * Pow2(failures - 1) < max then base * Pow2(failures - 1)
    else max
  }

  /** The first doubling of `base` to reach 2^62: the largest cap that cannot overflow. */
  function SafeCap(base: int): (r: int)
    requires 0 < base < TWO_63
    ensures TWO_62 <= r < TWO_63
    decreases TWO_63 - base
  {
    if base >= TWO_62 then base else SafeCap(2 * base)
  }

  lemma {:induction false} PowShift(base: int, n: nat)
    ensures (2 * base) * Pow2(n) == base * Pow2(n + 1)
  {
  }

  lemma {:induction false} PowGrows(base: int, n: nat)
    requires base > 0
    ensures base * Pow2(n) >= base
  {
    assert Pow2(n) >= 1;
    assert base * Pow2(n) >= base * 1 by { MulMono(base, 1, Pow2(n)); }
  }

  lemma MulMono(a: int, x: int, y: int)
    requires a >= 0 && x <= y
    ensures a * x <= a * y
  {
  }

  lemma DoubledOnce(base: int, max: int, steps: nat)
    requires 0 < base < TWO_62 && steps > 0
    ensures Doubled(base, max, steps) == if 2 * base >= max then max else Doubled(2 * base, max, steps - 1)
  {
    assert Wrap(base * 2) == 2 * base;
  }

  lemma {:induction false} DoublesExactly(base: int, max: int, steps: nat)
    requires 0 < base < TWO_63 && base < max <= SafeCap(base)
    ensures Doubled(base, max, steps) == if base * Pow2(steps) < max then base * Pow2(steps) else max
    decreases steps
  {
    hide Wrap, Doubled, Pow2;
    if steps == 0 {
      DoubledZero(base, max);
    } else {
      assert base < TWO_62;
      DoubledOnce(base, max, steps);
      PowShift(base, steps - 1);
      if 2 * base < max {
        DoublesExactly(2 * base, max, steps - 1);
      } else {
        PowGrows(2 * base, steps - 1);
      }
    }
  }

  lemma DoubledZero(base: int, max: int)
    ensures Doubled(base, max, 0) == base && base * Pow2(0) == base
  {
  }

  /** How many doublings take `base` to `SafeCap(base)`. */
  function CapSteps(base: int): nat
    requires 0 < base < TWO_63
    decreases TWO_63 - base
  {
    if base >= TWO_62 then 0 else 1 + CapSteps(2 * base)
  }

  lemma {:induction false} OverflowsAboveCap(base: int, max: int)
    requires 0 < base < TWO_63 && SafeCap(base) < max <= MAX_INT
    ensures Doubled(base, max, CapSteps(base) + 1) < 0
    decreases TWO_63 - base
  {
    if base < TWO_62 {
      assert Wrap(base * 2) == 2 * base;
      OverflowsAboveCap(2 * base, max);
    } else {
      assert Wrap(base * 2) == base * 2 - TWO_64;
      assert Doubled(base, max, 1) == Wrap(base * 2);
    }
  }

  lemma IdealPositive(base: int, max: int, n: int)
    requires 0 < base && 0 < max
    ensures Ideal(base, max, n) > 0
  {
    if n > 1 { PowGrows(base, n - 1); }
  }

  /** The loop computes the documented delay for every failure count, without int64 overflow,
      exactly when the cap does not exceed the first doubling of `base` that reaches 2^62. */
  lemma DelayIsIdealIff(base: int, max: int)
    requires 0 < base < max <= MAX_INT
    ensures (forall n :: DelayOf(base, max, n) == Ideal(base, max, n)) <==> max <= SafeCap(base)
  {
    if max <= SafeCap(base) {
      forall n ensures DelayOf(base, max, n) == Ideal(base, max, n) {
        if n > 1 { DoublesExactly(base, max, n - 1); }
      }
    } else {
      OverflowsAboveCap(base, max);
      IdealPositive(base, max, CapSteps(base) + 2);
      assert DelayOf(base, max, CapSteps(base) + 2) != Ideal(base, max, CapSteps(base) + 2);
    }
  }

  /** In particular for every cap up to 2^62; for a cap at or below `base` as well, where the first
      delay is `base` itself and so exceeds a smaller cap. */
  lemma DelayClosedForm(base: int, max: int, n: int)
    requires 0 < base < TWO_62 && 0 < max <= TWO_62
    ensures DelayOf(base, max, n) == Ideal(base, max, n)
    ensures n >= 2 ==> DelayOf(base, max, n) <= max
    ensures n <= 1 ==> DelayOf(base, max, n) == base
  {
    if base < max {
      DelayIsIdealIff(base, max);
    } else if n > 1 {
      PowGrows(base, n - 1);
    }
  }

  // ---------------------------------------------------------------- runs of rounds

  function Run(base: int, max: int, t: Table, rs: seq<Round>): Table {
    if rs == [] then t else Step(base, max, Run(base, max, t, rs[..|rs| - 1]), rs[|rs| - 1])
  }

  /** The times at which a collector was really attempted. */
  function Attempts(base: int, max: int, t: Table, rs: seq<Round>, name: string): seq<int> {
    if rs == [] then []
    else
      var n := |rs| - 1;
      var before := Attempts(base, max, t, rs[..n], name);
      if rs[n].name == name && Allowed(Run(base, max, t, rs[..n]), name, rs[n].now) then
        before + [rs[n].now]
      else before
  }

  /** The log lines of a collector: `true` for a recovery, `false` for a first failure. */
  function LogLines(base: int, max: int, t: Table, rs: seq<Round>, name: string): seq<bool> {
    if rs == [] then []
    else
      var n := |rs| - 1;
      var before := LogLines(base, max, t, rs[..n], name);
      if rs[n].name == name && Logs(Run(base, max, t, rs[..n]), rs[n]) then before + [rs[n].works] else before
  }

  /** Log lines for one collector strictly alternate between failure and recovery, starting with a
      failure, and the last one tells whether the collector is failing now. */
  lemma {:induction false} LogLinesAlternate(base: int, max: int, t: Table, rs: seq<Round>, name: string)
    requires FailureCount(t, name) == 0
    ensures var lines := LogLines(base, max, t, rs, name);
            && (forall i | 0 <= i < |lines| :: lines[i] == (i % 2 == 1))
            && (FailureCount(Run(base, max, t, rs), name) > 0 <==> |lines| % 2 == 1)
  {
    if rs != [] {
      LogLinesAlternate(base, max, t, rs[..|rs| - 1], name);
    }
  }

  ghost predicate AllFail(rs: seq<Round>, name: string) {
    forall i | 0 <= i < |rs| && rs[i].name == name :: !rs[i].works
  }

  /** The table counts the attempts, and the next one waits out the delay. */
  ghost predicate Waits(base: int, max: int, s: Table, name: string, a: seq<int>) {
    && FailureCount(s, name) == |a|
    && (a != [] ==> s[name].retryAt == a[|a| - 1] + DelayOf(base, max, |a|))
    && forall i | 0 <= i < |a| - 1 :: a[i + 1] >= a[i] + DelayOf(base, max, i + 1)
  }

  lemma WaitsStep(base: int, max: int, s: Table, r: Round, name: string, a: seq<int>)
    requires Waits(base, max, s, name, a) && (r.name == name ==> !r.works)
    ensures Waits(base, max, Step(base, max, s, r), name,
                  if r.name == name && Allowed(s, name, r.now) then a + [r.now] else a)
  {
    hide DelayOf;
  }

  lemma RoundsStep(base: int, max: int, t: Table, rs: seq<Round>, r: Round, name: string)
    ensures Run(base, max, t, rs + [r]) == Step(base, max, Run(base, max, t, rs), r)
    ensures Attempts(base, max, t, rs + [r], name) ==
            var before := Attempts(base, max, t, rs, name);
            if r.name == name && Allowed(Run(base, max, t, rs), name, r.now) then before + [r.now] else before
  {
    assert (rs + [r])[..|rs|] == rs;
  }

  /** In a failing run the table counts the attempts and the next one waits out the delay. */
  lemma {:induction false} FailingRun(base: int, max: int, t: Table, rs: seq<Round>, name: string)
    requires FailureCount(t, name) == 0 && AllFail(rs, name)
    ensures Waits(base, max, Run(base, max, t, rs), name, Attempts(base, max, t, rs, name))
  {
    hide Waits, Step, Allowed, Run, Attempts, DelayOf;
    if rs == [] {
      NothingWaits(base, max, t, name);
    } else {
      var n := |rs| - 1;
      assert rs == rs[..n] + [rs[n]];
      FailingRun(base, max, t, rs[..n], name);
      RoundsStep(base, max, t, rs[..n], rs[n], name);
      WaitsStep(base, max, Run(base, max, t, rs[..n]), rs[n], name, Attempts(base, max, t, rs[..n], name));
    }
  }

  lemma NothingWaits(base: int, max: int, t: Table, name: string)
    requires FailureCount(t, name) == 0
    ensures Waits(base, max, Run(base, max, t, []), name, Attempts(base, max, t, [], name))
  {
  }

  lemma {:induction false} AttemptsSpread(a: seq<int>, base: int, max: int, doublings: nat, j: nat)
    requires 0 < base < TWO_62 && 0 < max <= TWO_62
    requires base * Pow2(doublings) >= max
    requires forall i | 0 <= i < |a| - 1 :: a[i + 1] >= a[i] + DelayOf(base, max, i + 1)
    requires j < |a|
    ensures a[j] - a[0] >= 0
    ensures j >= doublings ==> a[j] - a[0] >= (j - doublings) * max
  {
    if j > 0 {
      AttemptsSpread(a, base, max, doublings, j - 1);
      DelayClosedForm(base, max, j);
      IdealPositive(base, max, j);
      if j > doublings {
        PowMono(base, doublings, j - 1);
        assert (j - doublings) * max == (j - 1 - doublings) * max + max;
      }
    }
  }

  lemma {:induction false} PowMono(base: int, m: nat, n: nat)
    requires m <= n && base > 0
    ensures base * Pow2(m) <= base * Pow2(n)
    decreases n
  {
    if m < n {
      PowMono(base, m, n - 1);
      PowShift(base, n - 1);
      PowGrows(base, n - 1);
    }
  }

  /** Attempts in a failing run are rare: over a span of `T` there are at most one, plus one for
      each doubling it takes to reach the cap, plus `T / max`. */
  lemma FailingAttemptsBounded(base: int, max: int, t: Table, rs: seq<Round>, name: string, doublings: nat)
    requires 0 < base < TWO_62 && 0 < max <= TWO_62
    requires base * Pow2(doublings) >= max
    requires FailureCount(t, name) == 0 && AllFail(rs, name)
    ensures var a := Attempts(base, max, t, rs, name);
            a != [] ==> |a| <= 1 + doublings + (a[|a| - 1] - a[0]) / max
  {
    hide DelayOf, Pow2, Run, Attempts, AllFail, FailureCount;
    FailingRun(base, max, t, rs, name);
    if Attempts(base, max, t, rs, name) != [] {
      SpacedAttemptsBounded(Attempts(base, max, t, rs, name), base, max, doublings);
    }
  }

  lemma SpacedAttemptsBounded(a: seq<int>, base: int, max: int, doublings: nat)
    requires 0 < base < TWO_62 && 0 < max <= TWO_62
    requires base * Pow2(doublings) >= max
    requires forall i | 0 <= i < |a| - 1 :: a[i + 1] >= a[i] + DelayOf(base, max, i + 1)
    requires a != []
    ensures |a| <= 1 + doublings + (a[|a| - 1] - a[0]) / max
  {
    hide *;
    AttemptsSpread(a, base, max, doublings, |a| - 1);
    if |a| - 1 > doublings {
      QuotientBound(|a| - 1 - doublings, max, a[|a| - 1] - a[0]);
    }
  }

  lemma QuotientBound(k: int, m: int, span: int)
    requires m > 0 && k * m <= span
    ensures k <= span / m
  {
    assert span < m * (span / m + 1);
    if k >= span / m + 1 {
      MulMono(m, span / m + 1, k);
      assert false;
    }
  }

  // ---------------------------------------------------------------- refinement of the full history

  /** The specification, without a table: the failed attempts of a collector since it last worked. It is attempted
      when there are none, or when the last of them is a delay ago. */
  function FailedSince(base: int, max: int, rs: seq<Round>, name: string): seq<int> {
    if rs == [] then []
    else
      var r := rs[|rs| - 1];
      var before := FailedSince(base, max, rs[..|rs| - 1], name);
      if r.name != name || !Due(base, max, before, r.now) then before
      else if r.works then [] else before + [r.now]
  }

  predicate Due(base: int, max: int, failed: seq<int>, now: int) {
    failed == [] || failed[|failed| - 1] + DelayOf(base, max, |failed|) <= now
  }

  /** The table counts the failed attempts and remembers when the last one's delay is over. */
  ghost predicate Remembers(base: int, max: int, t: Table, name: string, failed: seq<int>) {
    && FailureCount(t, name) == |failed|
    && (failed != [] ==> t[name].retryAt == failed[|failed| - 1] + DelayOf(base, max, |failed|))
  }

  lemma RemembersDecides(base: int, max: int, t: Table, name: string, failed: seq<int>, now: int)
    requires Remembers(base, max, t, name, failed)
    ensures Allowed(t, name, now) <==> Due(base, max, failed, now)
  {
    hide DelayOf;
  }

  lemma RemembersStep(base: int, max: int, t: Table, r: Round, name: string, failed: seq<int>)
    requires Remembers(base, max, t, name, failed)
    ensures Remembers(base, max, Step(base, max, t, r), name,
                      if r.name != name || !Due(base, max, failed, r.now) then failed
                      else if r.works then [] else failed + [r.now])
  {
    hide DelayOf;
  }

  lemma {:induction false} TableRemembers(base: int, max: int, rs: seq<Round>, name: string)
    ensures Remembers(base, max, Run(base, max, map[], rs), name, FailedSince(base, max, rs, name))
  {
    hide Remembers, Step, DelayOf;
    if rs == [] {
      NothingRemembered(base, max, name);
    } else {
      var n := |rs| - 1;
      TableRemembers(base, max, rs[..n], name);
      RemembersStep(base, max, Run(base, max, map[], rs[..n]), rs[n], name, FailedSince(base, max, rs[..n], name));
    }
  }

  lemma NothingRemembered(base: int, max: int, name: string)
    ensures Remembers(base, max, Run(base, max, map[], []), name, FailedSince(base, max, [], name))
  {
  }

  /** After any rounds, of any collectors, working or not: a collector is attempted iff it has not failed since it
      last worked, or its last failed attempt is at least the delay for that many failures ago. */
  lemma AttemptedIff(base: int, max: int, rs: seq<Round>, name: string, now: int)
    ensures Allowed(Run(base, max, map[], rs), name, now) <==>
            var failed := FailedSince(base, max, rs, name);
            failed == [] || failed[|failed| - 1] + DelayOf(base, max, |failed|) <= now
  {
    hide DelayOf, Run, FailedSince, Allowed, Remembers;
    TableRemembers(base, max, rs, name);
    RemembersDecides(base, max, Run(base, max, map[], rs), name, FailedSince(base, max, rs, name), now);
  }

  /** And it is logged iff it is attempted and its outcome differs from that of the attempt before. */
  lemma LoggedIff(base: int, max: int, rs: seq<Round>, r: Round)
    ensures Logs(Run(base, max, map[], rs), r) <==>
            var failed := FailedSince(base, max, rs, r.name);
            Due(base, max, failed, r.now) && (if r.works then failed != [] else failed == [])
  {
    hide DelayOf, Run, FailedSince, Due;
    TableRemembers(base, max, rs, r.name);
    RemembersDecides(base, max, Run(base, max, map[], rs), r.name, FailedSince(base, max, rs, r.name), r.now);
  }
}
