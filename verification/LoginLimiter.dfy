/** The per-IP login rate limiter: a pruned window of attempts, a failure counter with lockout,
    and a periodic cleanup. Times are nanoseconds on a clock that never goes back. */
module LoginLimiter {

  const RATE_LIMIT_PER_MINUTE := 5
  const LOCKOUT_THRESHOLD := 10
  const WINDOW := 60_000_000_000
  const LOCKOUT := 15 * 60_000_000_000

  /** `Never` is the zero time, which lies before every clock reading. */
  datatype Lock = Never | Until(at: int)

  datatype LoginRecord = LoginRecord(attempts: seq<int>, failures: nat, lockedUntil: Lock)

  const FRESH := LoginRecord([], 0, Never)

  predicate IsLocked(rec: LoginRecord, now: int) {
    rec.lockedUntil.Until? && now < rec.lockedUntil.at
  }

  /** The times strictly after `cutoff`, in order. */
  function After(times: seq<int>, cutoff: int): (r: seq<int>)
    ensures |r| <= |times|
  {
    if times == [] then []
    else
      var n := |times| - 1;
      if times[n] > cutoff then After(times[..n], cutoff) + [times[n]] else After(times[..n], cutoff)
  }

  type Records = map<string, LoginRecord>

  function Fetch(rs: Records, ip: string): LoginRecord {
    if ip in rs then rs[ip] else FRESH
  }

  datatype Event =
    | Allow(ip: string, now: int) | Failure(ip: string, now: int) | Success(ip: string, now: int)
    | Cleanup(now: int)

  predicate Admits(rs: Records, ip: string, now: int) {
    !IsLocked(Fetch(rs, ip), now) && |After(Fetch(rs, ip).attempts, now - WINDOW)| < RATE_LIMIT_PER_MINUTE
  }

  function AllowRecord(rec: LoginRecord, now: int): LoginRecord {
    var valid := After(rec.attempts, now - WINDOW);
    if IsLocked(rec, now) then rec
    else if |valid| >= RATE_LIMIT_PER_MINUTE then rec.(attempts := valid)
    else rec.(attempts := valid + [now])
  }

  function FailureRecord(rec: LoginRecord, now: int): LoginRecord {
    LoginRecord(rec.attempts, rec.failures + 1,
                if rec.failures + 1 >= LOCKOUT_THRESHOLD then Until(now + LOCKOUT) else rec.lockedUntil)
  }

  /** `Cleanup` drops a record that is unlocked, has no failures and no attempt in two windows. */
  predicate Stale(rec: LoginRecord, now: int) {
    !IsLocked(rec, now) && rec.failures == 0
    && forall i | 0 <= i < |rec.attempts| :: rec.attempts[i] <= now - WINDOW * 2
  }

  function Step(rs: Records, e: Event): Records {
    match e
    case Allow(ip, now) => rs[ip := AllowRecord(Fetch(rs, ip), now)]
    case Failure(ip, now) => rs[ip := FailureRecord(Fetch(rs, ip), now)]
    case Success(ip, now) => if ip in rs then rs[ip := LoginRecord(rs[ip].attempts, 0, Never)] else rs
    case Cleanup(now) => map ip | ip in rs && !Stale(rs[ip], now) :: rs[ip]
  }

  function Run(es: seq<Event>): Records {
    if es == [] then map[] else Step(Run(es[..|es| - 1]), es[|es| - 1])
  }

  class LoginRateLimiter {
    var records: map<string, LoginRecord>

    constructor ()
      ensures records == map[]
    {
      records := map[];
    }

    method AllowLogin(ip: string, now: int) returns (allowed: bool)
      modifies this
      ensures allowed == Admits(old(records), ip, now)
      ensures records == Step(old(records), Allow(ip, now))
    {
      var rec := if ip in records then records[ip] else FRESH;
      records := records[ip := rec];
      if rec.lockedUntil.Until? && now < rec.lockedUntil.at {
        return false;
      }
      var cutoff := now - WINDOW;
      var valid: seq<int> := [];
      for i := 0 to |rec.attempts|
        invariant valid == After(rec.attempts[..i], cutoff)
      {
        assert rec.attempts[..i + 1][..i] == rec.attempts[..i];
        if rec.attempts[i] > cutoff {
          valid := valid + [rec.attempts[i]];
        }
      }
      assert rec.attempts[..|rec.attempts|] == rec.attempts;
      records := records[ip := rec.(attempts := valid)];
      if |valid| >= RATE_LIMIT_PER_MINUTE {
        return false;
      }
      records := records[ip := rec.(attempts := valid + [now])];
      return true;
    }

    method RecordFailure(ip: string, now: int)
      modifies this
      ensures records == Step(old(records), Failure(ip, now))
    {
      var rec := if ip in records then records[ip] else FRESH;
      rec := rec.(failures := rec.failures + 1);
      if rec.failures >= LOCKOUT_THRESHOLD {
        rec := rec.(lockedUntil := Until(now + LOCKOUT));
      }
      records := records[ip := rec];
    }

    method RecordSuccess(ip: string, now: int)
      modifies this
      ensures records == Step(old(records), Success(ip, now))
    {
      if ip in records {
        records := records[ip := records[ip].(failures := 0, lockedUntil := Never)];
      }
    }

    method CleanupRecords(now: int)
      modifies this
      ensures forall ip :: ip in records <==>
                ip in old(records)
                && !(var rec := old(records)[ip];
                     && (rec.lockedUntil == Never || rec.lockedUntil.at <= now) && rec.failures == 0
                     && forall i | 0 <= i < |rec.attempts| :: rec.attempts[i] <= now - 120_000_000_000)
      ensures forall ip | ip in records :: records[ip] == old(records)[ip]
      ensures records == Step(old(records), Cleanup(now))
    {
      var cutoff := now - WINDOW * 2;
      var todo := records.Keys;
      while todo != {}
        invariant todo <= records.Keys
        invariant forall ip :: ip in records <==> ip in todo || (ip in old(records) && !Stale(old(records)[ip], now))
        invariant forall ip | ip in records :: ip in old(records) && records[ip] == old(records)[ip]
      {
        assert (forall ip :: ip !in todo) ==> todo == {};
        var ip :| ip in todo;
        todo := todo - {ip};
        var rec := records[ip];
        var locked := rec.lockedUntil.Until? && now < rec.lockedUntil.at;
        if !locked {
          var hasRecent := false;
          for i := 0 to |rec.attempts|
            invariant hasRecent <==> exists j :: 0 <= j < i && rec.attempts[j] > cutoff
          {
            if rec.attempts[i] > cutoff {
              hasRecent := true;
            }
          }
          if !hasRecent && rec.failures == 0 {
            records := records - {ip};
          }
        }
      }
    }
  }

  // ---------------------------------------------------------------- the full-history specification

  /** The failures of an IP since its last success. */
  function Failures(es: seq<Event>, ip: string): seq<int> {
    if es == [] then []
    else
      var n := |es| - 1;
      var before := Failures(es[..n], ip);
      match es[n]
      case Failure(who, now) => if who == ip then before + [now] else before
      case Success(who, _) => if who == ip then [] else before
      case _ => before
  }

  /** Ten failures in a row lock the IP for fifteen minutes after the last one. */
  predicate LockedOut(es: seq<Event>, ip: string, now: int) {
    var f := Failures(es, ip);
    |f| >= 10 && now < f[|f| - 1] + 900_000_000_000
  }

  /** An attempt is permitted iff the IP is not locked out and fewer than five permitted attempts
      of the whole history lie in the minute before it. */
  predicate Permitted(es: seq<Event>, ip: string, now: int)
    decreases |es|, 1
  {
    !LockedOut(es, ip, now) && |After(PermittedTimes(es, ip), now - 60_000_000_000)| < 5
  }

  function PermittedTimes(es: seq<Event>, ip: string): seq<int>
    decreases |es|, 0
  {
    if es == [] then []
    else
      var n := |es| - 1;
      var before := PermittedTimes(es[..n], ip);
      if es[n].Allow? && es[n].ip == ip && Permitted(es[..n], ip, es[n].now) then before + [es[n].now] else before
  }

  ghost predicate Clocked(es: seq<Event>, now: int) {
    && (forall i, j | 0 <= i < j < |es| :: es[i].now <= es[j].now)
    && (es == [] || es[|es| - 1].now <= now)
  }

  // ---------------------------------------------------------------- windows of times

  lemma {:induction false} AfterConcat(a: seq<int>, x: int, cutoff: int)
    ensures After(a + [x], cutoff) == if x > cutoff then After(a, cutoff) + [x] else After(a, cutoff)
  {
    assert (a + [x])[..|a|] == a;
  }

  lemma {:induction false} AfterAfter(a: seq<int>, c: int, d: int)
    requires c <= d
    ensures After(After(a, c), d) == After(a, d)
  {
    if a != [] {
      var n := |a| - 1;
      AfterAfter(a[..n], c, d);
      if a[n] > c { AfterConcat(After(a[..n], c), a[n], d); }
    }
  }

  lemma {:induction false} AfterNone(a: seq<int>, c: int)
    requires forall i | 0 <= i < |a| :: a[i] <= c
    ensures After(a, c) == []
  {
    if a != [] { AfterNone(a[..|a| - 1], c); }
  }

  lemma AfterShrinks(a: seq<int>, c: int, d: int)
    requires c <= d
    ensures |After(a, d)| <= |After(a, c)|
  {
    AfterAfter(a, c, d);
  }

  // ---------------------------------------------------------------- refinement

  /** What a record must agree on with the history, seen from time `now` on. */
  ghost predicate Represents(rec: LoginRecord, failures: seq<int>, permitted: seq<int>, now: int) {
    && rec.failures == |failures|
    && rec.lockedUntil == (if |failures| >= LOCKOUT_THRESHOLD then Until(failures[|failures| - 1] + LOCKOUT) else Never)
    && forall c | c >= now - WINDOW :: After(rec.attempts, c) == After(permitted, c)
  }

  lemma AllowKeeps(rec: LoginRecord, failures: seq<int>, permitted: seq<int>, before: int, now: int)
    requires Represents(rec, failures, permitted, before) && before <= now
    ensures var ok := !IsLocked(rec, now) && |After(rec.attempts, now - WINDOW)| < RATE_LIMIT_PER_MINUTE;
            Represents(AllowRecord(rec, now), failures, if ok then permitted + [now] else permitted, now)
  {
    var valid := After(rec.attempts, now - WINDOW);
    forall c | c >= now - WINDOW
      ensures After(valid, c) == After(permitted, c)
      ensures After(valid + [now], c) == After(permitted + [now], c)
    {
      AfterAfter(rec.attempts, now - WINDOW, c);
      AfterConcat(valid, now, c);
      AfterConcat(permitted, now, c);
    }
  }

  lemma StaleIsFresh(rec: LoginRecord, failures: seq<int>, permitted: seq<int>, now: int)
    requires Represents(rec, failures, permitted, now) && Stale(rec, now)
    ensures Represents(FRESH, failures, permitted, now)
  {
    forall c | c >= now - WINDOW ensures After(FRESH.attempts, c) == After(permitted, c) {
      AfterNone(rec.attempts, c);
    }
  }

  /** Time passing only shrinks what a record has to agree on. */
  lemma RepresentsLater(rec: LoginRecord, failures: seq<int>, permitted: seq<int>, before: int, now: int)
    requires Represents(rec, failures, permitted, before) && before <= now
    ensures Represents(rec, failures, permitted, now)
  {
  }

  /** The history update one event makes for one IP. */
  function NextFailures(f: seq<int>, e: Event, ip: string): seq<int> {
    match e
    case Failure(who, now) => if who == ip then f + [now] else f
    case Success(who, _) => if who == ip then [] else f
    case _ => f
  }

  function NextPermitted(ts: seq<int>, e: Event, ip: string, ok: bool): seq<int> {
    if e.Allow? && e.ip == ip && ok then ts + [e.now] else ts
  }

  lemma FailureKeeps(rec: LoginRecord, f: seq<int>, ts: seq<int>, now: int)
    requires Represents(rec, f, ts, now)
    ensures Represents(FailureRecord(rec, now), f + [now], ts, now)
  {
  }

  lemma SuccessKeeps(rec: LoginRecord, f: seq<int>, ts: seq<int>, now: int)
    requires Represents(rec, f, ts, now)
    ensures Represents(LoginRecord(rec.attempts, 0, Never), [], ts, now)
  {
  }

  lemma StepRepresents(rs: Records, e: Event, ip: string, f: seq<int>, ts: seq<int>)
    requires Represents(Fetch(rs, ip), f, ts, e.now)
    ensures Represents(Fetch(Step(rs, e), ip), NextFailures(f, e, ip),
                       NextPermitted(ts, e, ip, Admits(rs, ip, e.now)), e.now)
  {
    hide Represents, After, AllowRecord, FailureRecord;
    match e {
      case Allow(who, now) => if who == ip { AllowKeeps(Fetch(rs, ip), f, ts, now, now); }
      case Failure(who, now) => if who == ip { FailureKeeps(Fetch(rs, ip), f, ts, now); }
      case Success(who, now) => if who == ip { SuccessKeeps(Fetch(rs, ip), f, ts, now); }
      case Cleanup(now) => if ip in rs && Stale(rs[ip], now) { StaleIsFresh(rs[ip], f, ts, now); }
    }
  }

  lemma RepresentsDecides(rs: Records, es: seq<Event>, ip: string, now: int)
    requires Represents(Fetch(rs, ip), Failures(es, ip), PermittedTimes(es, ip), now)
    ensures Admits(rs, ip, now) == Permitted(es, ip, now)
  {
  }

  lemma ClockedPrefix(es: seq<Event>, e: Event, now: int)
    requires Clocked(es + [e], now)
    ensures Clocked(es, e.now) && e.now <= now
  {
    assert (es + [e])[|es|] == e;
    assert forall i | 0 <= i < |es| :: (es + [e])[i] == es[i];
  }

  lemma HistoryStep(es: seq<Event>, e: Event, ip: string)
    ensures Run(es + [e]) == Step(Run(es), e)
    ensures Failures(es + [e], ip) == NextFailures(Failures(es, ip), e, ip)
    ensures PermittedTimes(es + [e], ip) == NextPermitted(PermittedTimes(es, ip), e, ip, Permitted(es, ip, e.now))
  {
    assert (es + [e])[..|es|] == es;
  }

  lemma EmptyRepresents(ip: string, now: int)
    ensures Represents(Fetch(Run([]), ip), Failures([], ip), PermittedTimes([], ip), now)
  {
  }

  /** The record of every IP, present or dropped, agrees with the full history. */
  lemma {:induction false} RecordsRepresent(es: seq<Event>, ip: string, now: int)
    requires Clocked(es, now)
    ensures Represents(Fetch(Run(es), ip), Failures(es, ip), PermittedTimes(es, ip), now)
  {
    hide *;
    if es == [] {
      EmptyRepresents(ip, now);
    } else {
      var n := |es| - 1;
      var es', e := es[..n], es[n];
      assert es == es' + [e];
      ClockedPrefix(es', e, now);
      RecordsRepresent(es', ip, e.now);
      RepresentsDecides(Run(es'), es', ip, e.now);
      StepRepresents(Run(es'), e, ip, Failures(es', ip), PermittedTimes(es', ip));
      HistoryStep(es', e, ip);
      RepresentsLater(Fetch(Run(es), ip), Failures(es, ip), PermittedTimes(es, ip), e.now, now);
    }
  }

  // ---------------------------------------------------------------- main theorems

  /** The limiter refines the full history: whatever attempts, failures, successes and cleanups
      came before, an attempt is allowed iff the IP is not locked out and fewer than five allowed
      attempts lie in the minute before it. */
  lemma AllowRefinesHistory(es: seq<Event>, ip: string, now: int)
    requires Clocked(es, now)
    ensures Admits(Run(es), ip, now) <==>
              !LockedOut(es, ip, now) && |After(Granted(es, ip), now - 60_000_000_000)| < 5
  {
    RecordsRepresent(es, ip, now);
    RepresentsDecides(Run(es), es, ip, now);
    GrantedIsPermitted(es, ip, now);
  }

  /** The times at which the limiter really allowed the IP. */
  function Granted(es: seq<Event>, ip: string): seq<int> {
    if es == [] then []
    else
      var n := |es| - 1;
      NextPermitted(Granted(es[..n], ip), es[n], ip, Admits(Run(es[..n]), ip, es[n].now))
  }

  lemma GrantedStep(es: seq<Event>, e: Event, ip: string)
    ensures Granted(es + [e], ip) == NextPermitted(Granted(es, ip), e, ip, Admits(Run(es), ip, e.now))
  {
    assert (es + [e])[..|es|] == es;
  }

  lemma {:induction false} GrantedIsPermitted(es: seq<Event>, ip: string, now: int)
    requires Clocked(es, now)
    ensures Granted(es, ip) == PermittedTimes(es, ip)
  {
    hide Run, Failures, Permitted, Admits, Represents, Clocked;
    if es != [] {
      var n := |es| - 1;
      var es', e := es[..n], es[n];
      assert es == es' + [e];
      ClockedPrefix(es', e, now);
      GrantedIsPermitted(es', ip, e.now);
      RecordsRepresent(es', ip, e.now);
      RepresentsDecides(Run(es'), es', ip, e.now);
      GrantedStep(es', e, ip);
      HistoryStep(es', e, ip);
    }
  }

  /** One more allowed attempt still fits every window. */
  lemma AllowedFits(es: seq<Event>, ip: string, t: int, start: int)
    requires Clocked(es, t) && Admits(Run(es), ip, t) && start < t <= start + WINDOW
    ensures |Within(Granted(es, ip), start)| < RATE_LIMIT_PER_MINUTE
  {
    hide Run, Granted, Failures, Admits, Within, After, Clocked, LockedOut;
    AllowRefinesHistory(es, ip, t);
    WithinIsAfter(Granted(es, ip), start);
    AfterShrinks(Granted(es, ip), t - WINDOW, start);
  }

  /** No window of one minute, wherever it starts, ever holds more than five allowed attempts. */
  lemma {:induction false} WindowNeverExceeded(es: seq<Event>, ip: string, now: int, start: int)
    requires Clocked(es, now)
    ensures |Within(Granted(es, ip), start)| <= 5
  {
    hide Run, Failures, Permitted, Admits, Represents, Clocked, Within, Granted;
    if es == [] {
      NoneWithin(ip, start);
    } else {
      var n := |es| - 1;
      assert es == es[..n] + [es[n]];
      ClockedPrefix(es[..n], es[n], now);
      GrantedStep(es[..n], es[n], ip);
      WindowNeverExceeded(es[..n], ip, es[n].now, start);
      var t := es[n].now;
      WithinConcat(Granted(es[..n], ip), t, start);
      if es[n].Allow? && es[n].ip == ip && Admits(Run(es[..n]), ip, t) && start < t <= start + WINDOW {
        AllowedFits(es[..n], ip, t, start);
      }
    }
  }

  lemma NoneWithin(ip: string, start: int)
    ensures Within(Granted([], ip), start) == []
  {
  }

  /** The times in the window (start, start + one minute]. */
  function Within(times: seq<int>, start: int): seq<int> {
    if times == [] then []
    else
      var n := |times| - 1;
      if start < times[n] <= start + 60_000_000_000 then Within(times[..n], start) + [times[n]]
      else Within(times[..n], start)
  }

  lemma WithinConcat(a: seq<int>, x: int, start: int)
    ensures Within(a + [x], start) == if start < x <= start + WINDOW then Within(a, start) + [x] else Within(a, start)
  {
    assert (a + [x])[..|a|] == a;
  }

  lemma {:induction false} WithinIsAfter(a: seq<int>, start: int)
    ensures |Within(a, start)| <= |After(a, start)|
  {
    if a != [] { WithinIsAfter(a[..|a| - 1], start); }
  }

  /** A run with its cleanups left out. */
  function WithoutCleanups(es: seq<Event>): (r: seq<Event>)
    ensures es == [] ==> r == []
  {
    if es == [] then []
    else
      var n := |es| - 1;
      if es[n].Cleanup? then WithoutCleanups(es[..n]) else WithoutCleanups(es[..n]) + [es[n]]
  }

  lemma WithoutCleanupsStep(es: seq<Event>, e: Event)
    ensures WithoutCleanups(es + [e]) == if e.Cleanup? then WithoutCleanups(es) else WithoutCleanups(es) + [e]
  {
    assert (es + [e])[..|es|] == es;
  }

  lemma {:induction false} HistoryIgnoresCleanups(es: seq<Event>, ip: string)
    ensures Failures(WithoutCleanups(es), ip) == Failures(es, ip)
    ensures PermittedTimes(WithoutCleanups(es), ip) == PermittedTimes(es, ip)
    decreases |es|
  {
    hide WithoutCleanups, Failures, PermittedTimes, Run;
    if es != [] {
      var n := |es| - 1;
      var es', e := es[..n], es[n];
      assert es == es' + [e];
      HistoryIgnoresCleanups(es', ip);
      WithoutCleanupsStep(es', e);
      HistoryStep(es', e, ip);
      HistoryStep(WithoutCleanups(es'), e, ip);
    }
  }

  lemma ClockedExtend(es: seq<Event>, e: Event, now: int)
    requires Clocked(es, e.now) && e.now <= now
    ensures Clocked(es + [e], now)
  {
  }

  lemma ClockedLater(es: seq<Event>, before: int, now: int)
    requires Clocked(es, before) && before <= now
    ensures Clocked(es, now)
  {
  }

  lemma {:induction false} WithoutCleanupsClocked(es: seq<Event>, now: int)
    requires Clocked(es, now)
    ensures Clocked(WithoutCleanups(es), now)
  {
    hide WithoutCleanups, Clocked;
    if es != [] {
      var n := |es| - 1;
      var es', e := es[..n], es[n];
      assert es == es' + [e];
      ClockedPrefix(es', e, now);
      WithoutCleanupsClocked(es', e.now);
      WithoutCleanupsStep(es', e);
      ClockedLater(WithoutCleanups(es'), e.now, now);
      if !e.Cleanup? { ClockedExtend(WithoutCleanups(es'), e, now); }
    }
  }

  /** `Cleanup` is invisible: leaving all cleanups out of a run changes no later answer. */
  lemma CleanupIsInvisible(es: seq<Event>, ip: string, now: int)
    requires Clocked(es, now)
    ensures Admits(Run(es), ip, now) == Admits(Run(WithoutCleanups(es)), ip, now)
  {
    hide Run, Failures, PermittedTimes, Represents, Admits, WithoutCleanups, Clocked;
    WithoutCleanupsClocked(es, now);
    RecordsRepresent(es, ip, now);
    RecordsRepresent(WithoutCleanups(es), ip, now);
    RepresentsDecides(Run(es), es, ip, now);
    RepresentsDecides(Run(WithoutCleanups(es)), WithoutCleanups(es), ip, now);
    HistoryIgnoresCleanups(es, ip);
  }

  // ---------------------------------------------------------------- what a cleanup drops

  ghost predicate Ordered(times: seq<int>) {
    forall i, j | 0 <= i < j < |times| :: times[i] <= times[j]
  }

  /** A record remembers the last allowed attempt, unless that is two minutes old. */
  ghost predicate LastKept(rec: LoginRecord, granted: seq<int>, now: int) {
    && Ordered(rec.attempts) && Ordered(granted)
    && (granted != [] ==> granted[|granted| - 1] <= now)
    && (rec.attempts != [] ==> granted != [] && rec.attempts[|rec.attempts| - 1] == granted[|granted| - 1])
    && (rec.attempts == [] && granted != [] ==> granted[|granted| - 1] <= now - 120_000_000_000)
  }

  lemma {:induction false} AfterOrdered(a: seq<int>, c: int)
    requires Ordered(a)
    ensures Ordered(After(a, c))
    ensures a != [] && a[|a| - 1] > c ==> After(a, c) != [] && After(a, c)[|After(a, c)| - 1] == a[|a| - 1]
    ensures a == [] || a[|a| - 1] <= c ==> After(a, c) == []
    ensures forall x | x in After(a, c) :: x in a
  {
    if a != [] {
      var n := |a| - 1;
      assert Ordered(a[..n]);
      assert a == a[..n] + [a[n]];
      AfterOrdered(a[..n], c);
      if n > 0 { assert a[n - 1] <= a[n]; }
      forall x | x in After(a[..n], c) ensures x <= a[n] {
        var i :| 0 <= i < n && a[..n][i] == x;
      }
    }
  }

  lemma OrderedSnoc(times: seq<int>, now: int)
    requires Ordered(times) && (times != [] ==> times[|times| - 1] <= now)
    ensures Ordered(times + [now])
  {
    forall i | 0 <= i < |times| ensures times[i] <= now { assert times[i] <= times[|times| - 1]; }
  }

  lemma AllowKeepsLast(rec: LoginRecord, granted: seq<int>, before: int, now: int)
    requires LastKept(rec, granted, before) && before <= now
    ensures var ok := !IsLocked(rec, now) && |After(rec.attempts, now - WINDOW)| < RATE_LIMIT_PER_MINUTE;
            LastKept(AllowRecord(rec, now), if ok then granted + [now] else granted, now)
  {
    hide After, Ordered;
    var valid := After(rec.attempts, now - WINDOW);
    AfterOrdered(rec.attempts, now - WINDOW);
    OrderedSnoc(valid, now);
    OrderedSnoc(granted, now);
  }

  lemma LastKeptStep(rs: Records, e: Event, ip: string, granted: seq<int>, before: int)
    requires LastKept(Fetch(rs, ip), granted, before) && before <= e.now
    ensures LastKept(Fetch(Step(rs, e), ip), NextPermitted(granted, e, ip, Admits(rs, ip, e.now)), e.now)
  {
    hide After, AllowRecord;
    if e.Allow? && e.ip == ip { AllowKeepsLast(Fetch(rs, ip), granted, before, e.now); }
  }

  lemma {:induction false} RecordsKeepLast(es: seq<Event>, ip: string, now: int)
    requires Clocked(es, now)
    ensures LastKept(Fetch(Run(es), ip), Granted(es, ip), now)
  {
    hide Run, Granted, Admits, LastKept, Clocked, Step;
    if es == [] {
      NothingKept(ip, now);
    } else {
      var n := |es| - 1;
      assert es == es[..n] + [es[n]];
      ClockedPrefix(es[..n], es[n], now);
      RecordsKeepLast(es[..n], ip, es[n].now);
      LastKeptStep(Run(es[..n]), es[n], ip, Granted(es[..n], ip), es[n].now);
      HistoryStep(es[..n], es[n], ip);
      GrantedStep(es[..n], es[n], ip);
      LastKeptLater(Fetch(Run(es), ip), Granted(es, ip), es[n].now, now);
    }
  }

  lemma NothingKept(ip: string, now: int)
    ensures LastKept(Fetch(Run([]), ip), Granted([], ip), now)
  {
  }

  lemma LastKeptLater(rec: LoginRecord, granted: seq<int>, before: int, now: int)
    requires LastKept(rec, granted, before) && before <= now
    ensures LastKept(rec, granted, now)
  {
  }

  lemma StaleIff(rec: LoginRecord, failures: seq<int>, granted: seq<int>, now: int)
    requires LastKept(rec, granted, now) && rec.failures == |failures|
    requires rec.failures == 0 ==> rec.lockedUntil == Never
    ensures Stale(rec, now) <==>
            failures == [] && (granted == [] || granted[|granted| - 1] <= now - 120_000_000_000)
  {
  }

  lemma UnlockedWithoutFailures(rec: LoginRecord, failures: seq<int>, permitted: seq<int>, now: int)
    requires Represents(rec, failures, permitted, now)
    ensures rec.failures == |failures| && (rec.failures == 0 ==> rec.lockedUntil == Never)
  {
  }

  /** In terms of the history: a cleanup drops exactly the records of the IPs that have not failed since their last
      success and whose last allowed attempt, if there is one, is two minutes old or older. */
  lemma CleanupDropsIff(es: seq<Event>, ip: string, now: int)
    requires Clocked(es, now) && ip in Run(es)
    ensures ip !in Run(es + [Cleanup(now)]) <==>
            var granted := Granted(es, ip);
            Failures(es, ip) == [] && (granted == [] || granted[|granted| - 1] <= now - 120_000_000_000)
  {
    hide Run, Granted, Failures, PermittedTimes, Represents, LastKept, Stale, Clocked, Admits;
    RecordsKeepLast(es, ip, now);
    RecordsRepresent(es, ip, now);
    UnlockedWithoutFailures(Run(es)[ip], Failures(es, ip), PermittedTimes(es, ip), now);
    StaleIff(Run(es)[ip], Failures(es, ip), Granted(es, ip), now);
    HistoryStep(es, Cleanup(now), ip);
  }
}
