/** The port scanner as a protocol: a spawning loop throttled by a semaphore, and one worker
    goroutine per port, interleaved in every possible way. */
module PortScan {
  import opened Sequences

  /** The scanner's fields; zero means "use the default". */
  datatype Scanner = Scanner(portStart: int, portEnd: int, concurrency: nat, hasProgress: bool) {
    function Start(): int { if portStart == 0 then 1 else portStart }
    function End(): int { if portEnd == 0 then 65535 else portEnd }
    function Slots(): nat { if concurrency == 0 then 200 else concurrency }
    function Total(): int { End() - Start() + 1 }
    function Interval(): int { if Total() / 100 < 1 then 1 else Total() / 100 }
    /** The progress callback fires for the n-th finished port. */
    predicate Reports(n: int) { hasProgress && (n % Interval() == 0 || n == Total()) }
  }

  /** Where a worker stands: dialling, appending its port under the mutex, bumping the atomic
      counter, holding the value it got back, leaving the semaphore, signalling the wait group. */
  datatype Pc = Dialing | Appending | Counting | Counted(n: nat) | Releasing | Exiting | Done

  datatype Outcome = Running | Returned(ports: seq<int>)

  /** `counted` is history: the ports in the order their atomic increments took effect. */
  datatype State = State(next: int, workers: map<int, Pc>, tokens: nat, openPorts: seq<int>,
                         scanned: nat, counted: seq<int>, reports: seq<nat>, outcome: Outcome)

  datatype Action =
    | Spawn | Dial(p: int) | Append(p: int) | Count(p: int) | Report(p: int) | Release(p: int) | Exit(p: int)
    | Return

  function Init(c: Scanner): State {
    State(c.Start(), map[], 0, [], 0, [], [], Running)
  }

  predicate At(s: State, p: int, pc: Pc) {
    p in s.workers && s.workers[p] == pc
  }

  predicate Enabled(c: Scanner, s: State, a: Action) {
    && s.outcome == Running
    && match a
       case Spawn => s.next <= c.End() && s.tokens < c.Slots()
       case Dial(p) => At(s, p, Dialing)
       case Append(p) => At(s, p, Appending)
       case Count(p) => At(s, p, Counting)
       case Report(p) => p in s.workers && s.workers[p].Counted?
       case Release(p) => At(s, p, Releasing)
       case Exit(p) => At(s, p, Exiting)
       case Return => s.next > c.End() && forall p | p in s.workers :: s.workers[p] == Done
  }

  function Apply(c: Scanner, answers: iset<int>, s: State, a: Action): State
    requires Enabled(c, s, a)
    requires a.Release? ==> s.tokens > 0
  {
    match a
    case Spawn => s.(next := s.next + 1, workers := s.workers[s.next := Dialing], tokens := s.tokens + 1)
    case Dial(p) => s.(workers := s.workers[p := if p in answers then Appending else Counting])
    case Append(p) => s.(workers := s.workers[p := Counting], openPorts := s.openPorts + [p])
    case Count(p) =>
      s.(workers := s.workers[p := Counted(s.scanned + 1)], scanned := s.scanned + 1, counted := s.counted + [p])
    case Report(p) =>
      var n := s.workers[p].n;
      s.(workers := s.workers[p := Releasing], reports := if c.Reports(n) then s.reports + [n] else s.reports)
    case Release(p) => s.(workers := s.workers[p := Exiting], tokens := s.tokens - 1)
    case Exit(p) => s.(workers := s.workers[p := Done])
    case Return => s.(outcome := Returned(Sort(s.openPorts)))
  }

  // ---------------------------------------------------------------- the invariant

  predicate HoldsToken(pc: Pc) { !pc.Exiting? && !pc.Done? }
  predicate PastAppend(pc: Pc) { !pc.Dialing? && !pc.Appending? }
  predicate PastCount(pc: Pc) { PastAppend(pc) && !pc.Counting? }
  predicate PastReport(pc: Pc) { PastCount(pc) && !pc.Counted? }

  function Holders(s: State): set<int> {
    set p | p in s.workers && HoldsToken(s.workers[p])
  }

  ghost predicate SpawnInv(c: Scanner, s: State) {
    && c.Start() <= s.next
    && (s.next == c.Start() || s.next <= c.End() + 1)
    && (forall p :: p in s.workers <==> c.Start() <= p < s.next)
  }

  ghost predicate TokenInv(c: Scanner, s: State) {
    s.tokens == |Holders(s)| && s.tokens <= c.Slots()
  }

  ghost predicate OpenInv(answers: iset<int>, s: State) {
    && Distinct(s.openPorts)
    && (forall p :: p in s.openPorts <==> p in s.workers && p in answers && PastAppend(s.workers[p]))
    && (forall p | p in s.workers && s.workers[p] == Appending :: p in answers)
  }

  ghost predicate CountInv(s: State) {
    && s.scanned == |s.counted|
    && Distinct(s.counted)
    && (forall p :: p in s.counted <==> p in s.workers && PastCount(s.workers[p]))
    && (forall p | p in s.workers && s.workers[p].Counted? ::
          1 <= s.workers[p].n <= s.scanned && s.counted[s.workers[p].n - 1] == p)
  }

  ghost predicate ReportInv(c: Scanner, s: State) {
    && Distinct(s.reports)
    && (forall n | n in s.reports :: 1 <= n <= |s.counted|)
    && (forall n | 1 <= n <= |s.counted| && s.counted[n - 1] in s.workers ::
          n in s.reports <==> c.Reports(n) && PastReport(s.workers[s.counted[n - 1]]))
  }

  ghost predicate Inv(c: Scanner, answers: iset<int>, s: State) {
    && SpawnInv(c, s) && TokenInv(c, s) && OpenInv(answers, s) && CountInv(s) && ReportInv(c, s)
    && (s.outcome.Returned? ==>
          && s.next > c.End()
          && (forall p | p in s.workers :: s.workers[p] == Done)
          && s.outcome.ports == Sort(s.openPorts))
  }

  lemma TokenHeld(c: Scanner, answers: iset<int>, s: State, p: int)
    requires Inv(c, answers, s) && At(s, p, Releasing)
    ensures s.tokens > 0
  {
    assert p in Holders(s);
  }

  lemma TokensKept(c: Scanner, s: State, t: State, p: int)
    requires TokenInv(c, s) && p in s.workers && p in t.workers
    requires t.workers == s.workers[p := t.workers[p]]
    requires t.tokens == s.tokens - (if HoldsToken(s.workers[p]) && !HoldsToken(t.workers[p]) then 1 else 0)
    requires HoldsToken(t.workers[p]) ==> HoldsToken(s.workers[p])
    ensures TokenInv(c, t)
  {
    if HoldsToken(t.workers[p]) == HoldsToken(s.workers[p]) {
      assert Holders(t) == Holders(s);
    } else {
      assert Holders(t) == Holders(s) - {p};
    }
  }

  lemma ReportedOnce(c: Scanner, s: State, t: State, p: int)
    requires CountInv(s) && ReportInv(c, s) && p in s.workers && s.workers[p].Counted?
    requires t.counted == s.counted
    requires t.workers == s.workers[p := Releasing]
    requires var n := s.workers[p].n; t.reports == if c.Reports(n) then s.reports + [n] else s.reports
    ensures ReportInv(c, t)
  {
    var n := s.workers[p].n;
    assert n !in s.reports;
    forall m | 1 <= m <= |t.counted| && t.counted[m - 1] in t.workers
      ensures m in t.reports <==> c.Reports(m) && PastReport(t.workers[t.counted[m - 1]])
    {
      assert m == n <==> t.counted[m - 1] == p;
    }
  }

  lemma SpawnKeepsInv(c: Scanner, answers: iset<int>, s: State)
    requires Inv(c, answers, s) && Enabled(c, s, Spawn)
    ensures Inv(c, answers, Apply(c, answers, s, Spawn))
  {
    assert Holders(Apply(c, answers, s, Spawn)) == Holders(s) + {s.next};
  }

  lemma DialKeepsInv(c: Scanner, answers: iset<int>, s: State, p: int)
    requires Inv(c, answers, s) && Enabled(c, s, Dial(p))
    ensures Inv(c, answers, Apply(c, answers, s, Dial(p)))
  {
    TokensKept(c, s, Apply(c, answers, s, Dial(p)), p);
  }

  lemma AppendKeepsInv(c: Scanner, answers: iset<int>, s: State, p: int)
    requires Inv(c, answers, s) && Enabled(c, s, Append(p))
    ensures Inv(c, answers, Apply(c, answers, s, Append(p)))
  {
    TokensKept(c, s, Apply(c, answers, s, Append(p)), p);
  }

  lemma CountKeepsInv(c: Scanner, answers: iset<int>, s: State, p: int)
    requires Inv(c, answers, s) && Enabled(c, s, Count(p))
    ensures Inv(c, answers, Apply(c, answers, s, Count(p)))
  {
    TokensKept(c, s, Apply(c, answers, s, Count(p)), p);
  }

  lemma ReportKeepsInv(c: Scanner, answers: iset<int>, s: State, p: int)
    requires Inv(c, answers, s) && Enabled(c, s, Report(p))
    ensures Inv(c, answers, Apply(c, answers, s, Report(p)))
  {
    TokensKept(c, s, Apply(c, answers, s, Report(p)), p);
    ReportedOnce(c, s, Apply(c, answers, s, Report(p)), p);
  }

  lemma ReleaseKeepsInv(c: Scanner, answers: iset<int>, s: State, p: int)
    requires Inv(c, answers, s) && Enabled(c, s, Release(p))
    ensures s.tokens > 0
    ensures Inv(c, answers, Apply(c, answers, s, Release(p)))
  {
    TokenHeld(c, answers, s, p);
    TokensKept(c, s, Apply(c, answers, s, Release(p)), p);
  }

  lemma ExitKeepsInv(c: Scanner, answers: iset<int>, s: State, p: int)
    requires Inv(c, answers, s) && Enabled(c, s, Exit(p))
    ensures Inv(c, answers, Apply(c, answers, s, Exit(p)))
  {
    TokensKept(c, s, Apply(c, answers, s, Exit(p)), p);
  }

  lemma ReturnKeepsInv(c: Scanner, answers: iset<int>, s: State)
    requires Inv(c, answers, s) && Enabled(c, s, Return)
    ensures Inv(c, answers, Apply(c, answers, s, Return))
  {
    assert Holders(Apply(c, answers, s, Return)) == Holders(s);
  }

  lemma StepKeepsInv(c: Scanner, answers: iset<int>, s: State, a: Action)
    requires Inv(c, answers, s) && Enabled(c, s, a)
    ensures a.Release? ==> s.tokens > 0
    ensures Inv(c, answers, Apply(c, answers, s, a))
  {
    hide Inv, Enabled, Apply;
    match a {
      case Spawn => SpawnKeepsInv(c, answers, s);
      case Dial(p) => DialKeepsInv(c, answers, s, p);
      case Append(p) => AppendKeepsInv(c, answers, s, p);
      case Count(p) => CountKeepsInv(c, answers, s, p);
      case Report(p) => ReportKeepsInv(c, answers, s, p);
      case Release(p) => ReleaseKeepsInv(c, answers, s, p);
      case Exit(p) => ExitKeepsInv(c, answers, s, p);
      case Return => ReturnKeepsInv(c, answers, s);
    }
  }

  // ---------------------------------------------------------------- whole runs

  /** Following `schedule` from `s`, every action is enabled when it is taken. */
  predicate Feasible(c: Scanner, answers: iset<int>, s: State, schedule: seq<Action>)
    decreases |schedule|
  {
    schedule == [] ||
    (Enabled(c, s, schedule[0]) && (schedule[0].Release? ==> s.tokens > 0) &&
     Feasible(c, answers, Apply(c, answers, s, schedule[0]), schedule[1..]))
  }

  function After(c: Scanner, answers: iset<int>, s: State, schedule: seq<Action>): State
    requires Feasible(c, answers, s, schedule)
    decreases |schedule|
  {
    if schedule == [] then s else After(c, answers, Apply(c, answers, s, schedule[0]), schedule[1..])
  }

  lemma {:induction false} RunKeepsInv(c: Scanner, answers: iset<int>, s: State, schedule: seq<Action>)
    requires Inv(c, answers, s) && Feasible(c, answers, s, schedule)
    ensures Inv(c, answers, After(c, answers, s, schedule))
    decreases |schedule|
  {
    if schedule != [] {
      StepKeepsInv(c, answers, s, schedule[0]);
      RunKeepsInv(c, answers, Apply(c, answers, s, schedule[0]), schedule[1..]);
    }
  }

  lemma InitInv(c: Scanner, answers: iset<int>)
    ensures Inv(c, answers, Init(c))
  {
    assert Holders(Init(c)) == {};
  }

  lemma {:induction false} CountRange(xs: seq<int>, lo: int, hi: int)
    requires Distinct(xs) && lo <= hi
    requires forall p :: p in xs <==> lo <= p < hi
    ensures |xs| == hi - lo
    decreases hi - lo
  {
    if lo == hi {
      assert forall i | 0 <= i < |xs| :: xs[i] in xs;
    } else {
      assert hi - 1 in xs;
      var i :| 0 <= i < |xs| && xs[i] == hi - 1;
      var rest := xs[..i] + xs[i + 1..];
      forall p ensures p in rest <==> lo <= p < hi - 1 {
        if p in rest { assert p in xs; }
        if lo <= p < hi - 1 {
          assert p in xs;
          var j :| 0 <= j < |xs| && xs[j] == p;
          assert rest[if j < i then j else j - 1] == p;
        }
      }
      CountRange(rest, lo, hi - 1);
    }
  }

  /** The scan as configured: ports from the first to the last, at most so many workers at a time, progress whenever
      another hundredth is done and at the end. */
  lemma AsConfigured(c: Scanner)
    ensures c.Start() == (if c.portStart != 0 then c.portStart else 1)
    ensures c.End() == (if c.portEnd != 0 then c.portEnd else 65535)
    ensures c.Slots() == (if c.concurrency != 0 then c.concurrency else 200)
    ensures forall n :: c.Reports(n) <==>
              c.hasProgress && (n == c.End() - c.Start() + 1 ||
                                n % (if c.End() - c.Start() + 1 < 200 then 1 else (c.End() - c.Start() + 1) / 100) == 0)
  {
  }

  /** In every interleaving, at most the configured number of workers is between taking and
      releasing a semaphore slot, and no port is ever listed twice or outside the range. */
  lemma ScanIsThrottled(c: Scanner, answers: iset<int>, schedule: seq<Action>)
    requires Feasible(c, answers, Init(c), schedule)
    ensures var s := After(c, answers, Init(c), schedule);
            && |Holders(s)| <= (if c.concurrency != 0 then c.concurrency else 200)
            && (s.outcome == Running && s.next <= c.End() ==>
                  (Enabled(c, s, Spawn) <==> |Holders(s)| < (if c.concurrency != 0 then c.concurrency else 200)))
            && (forall p | p in s.workers && s.workers[p].Dialing? :: p in Holders(s))
            && Distinct(s.openPorts)
            && forall p | p in s.openPorts ::
                 (if c.portStart != 0 then c.portStart else 1) <= p <= (if c.portEnd != 0 then c.portEnd else 65535)
                 && p in answers
  {
    InitInv(c, answers);
    RunKeepsInv(c, answers, Init(c), schedule);
  }

  /** In every interleaving that returns, the result is the ascending list of exactly the ports of
      the range that answered. */
  lemma ScanIsExact(c: Scanner, answers: iset<int>, schedule: seq<Action>)
    requires Feasible(c, answers, Init(c), schedule)
    requires After(c, answers, Init(c), schedule).outcome.Returned?
    ensures var r := After(c, answers, Init(c), schedule).outcome.ports;
            && StrictlyAscending(r)
            && forall p :: p in r <==>
                 (if c.portStart != 0 then c.portStart else 1) <= p <= (if c.portEnd != 0 then c.portEnd else 65535)
                 && p in answers
  {
    InitInv(c, answers);
    RunKeepsInv(c, answers, Init(c), schedule);
    var s := After(c, answers, Init(c), schedule);
    SortDistinct(s.openPorts);
    SortElements(s.openPorts);
  }

  /** In every interleaving that returns, the progress callback fired for each count that is due,
      exactly once each; in particular exactly once with `n == total` on a non-empty range. */
  lemma ProgressIsExact(c: Scanner, answers: iset<int>, schedule: seq<Action>)
    requires Feasible(c, answers, Init(c), schedule)
    requires After(c, answers, Init(c), schedule).outcome.Returned?
    ensures var reports, total := After(c, answers, Init(c), schedule).reports, c.End() - c.Start() + 1;
            && Distinct(reports)
            && (forall n :: n in reports <==>
                  1 <= n <= total && c.hasProgress
                  && (n == total || n % (if total < 200 then 1 else total / 100) == 0))
            && (c.hasProgress && total >= 1 ==> multiset(reports)[total] == 1)
  {
    InitInv(c, answers);
    RunKeepsInv(c, answers, Init(c), schedule);
    FinalReports(c, After(c, answers, Init(c), schedule));
    AsConfigured(c);
  }

  lemma FinalReports(c: Scanner, s: State)
    requires SpawnInv(c, s) && CountInv(s) && ReportInv(c, s)
    requires s.next > c.End() && forall p | p in s.workers :: s.workers[p] == Done
    ensures forall n :: n in s.reports <==> 1 <= n <= c.Total() && c.Reports(n)
    ensures c.hasProgress && c.Total() >= 1 ==> multiset(s.reports)[c.Total()] == 1
  {
    CountRange(s.counted, c.Start(), s.next);
    forall n ensures n in s.reports <==> 1 <= n <= c.Total() && c.Reports(n) {
      if 1 <= n <= |s.counted| { assert s.counted[n - 1] in s.counted; }
    }
    if c.hasProgress && c.Total() >= 1 {
      OccursOnce(s.reports, c.Total());
    }
  }

  lemma OccursOnce(xs: seq<nat>, x: nat)
    requires Distinct(xs) && x in xs
    ensures multiset(xs)[x] == 1
  {
    var i :| 0 <= i < |xs| && xs[i] == x;
    DistinctCount(xs, i);
  }

  // ---------------------------------------------------------------- progress and termination

  /** A reachable state that has not returned can always take a step. */
  lemma NeverStuck(c: Scanner, answers: iset<int>, s: State) returns (a: Action)
    requires Inv(c, answers, s) && s.outcome == Running
    ensures Enabled(c, s, a)
  {
    if !forall p | p in s.workers :: s.workers[p] == Done {
      var p :| p in s.workers && s.workers[p] != Done;
      match s.workers[p] {
        case Dialing => a := Dial(p);
        case Appending => a := Append(p);
        case Counting => a := Count(p);
        case Counted(_) => a := Report(p);
        case Releasing => a := Release(p);
        case Exiting => a := Exit(p);
      }
    } else if s.next <= c.End() {
      assert forall p :: p !in Holders(s);
      assert Holders(s) == {};
      a := Spawn;
    } else {
      a := Return;
    }
  }

  function Rank(pc: Pc): nat {
    match pc
    case Dialing => 6 case Appending => 5 case Counting => 4 case Counted(_) => 3
    case Releasing => 2 case Exiting => 1 case Done => 0
  }

  function Pending(workers: map<int, Pc>, lo: int, hi: int): nat
    decreases hi - lo
  {
    if hi <= lo then 0
    else Pending(workers, lo, hi - 1) + if hi - 1 in workers then Rank(workers[hi - 1]) else 0
  }

  function Remaining(c: Scanner, s: State): nat {
    (if s.next <= c.End() then 7 * (c.End() + 1 - s.next) else 0) + Pending(s.workers, c.Start(), s.next)
    + if s.outcome == Running then 1 else 0
  }

  lemma {:induction false} PendingUpdate(workers: map<int, Pc>, lo: int, hi: int, p: int, pc: Pc)
    requires p in workers
    ensures Pending(workers[p := pc], lo, hi) ==
            Pending(workers, lo, hi) + if lo <= p < hi then Rank(pc) - Rank(workers[p]) else 0
    decreases hi - lo
  {
    if lo < hi { PendingUpdate(workers, lo, hi - 1, p, pc); }
  }

  lemma {:induction false} PendingNew(workers: map<int, Pc>, lo: int, hi: int, p: int, pc: Pc)
    requires p >= hi
    ensures Pending(workers[p := pc], lo, hi) == Pending(workers, lo, hi)
    decreases hi - lo
  {
    if lo < hi { PendingNew(workers, lo, hi - 1, p, pc); }
  }

  /** A worker that moves on shrinks what remains. */
  lemma MoveShrinks(c: Scanner, s: State, t: State, p: int)
    requires SpawnInv(c, s) && p in s.workers && p in t.workers && t.workers == s.workers[p := t.workers[p]]
    requires t.next == s.next && t.outcome == s.outcome && Rank(t.workers[p]) < Rank(s.workers[p])
    ensures Remaining(c, t) < Remaining(c, s)
  {
    hide Pending, Rank;
    PendingUpdate(s.workers, c.Start(), s.next, p, t.workers[p]);
  }

  lemma SpawnShrinks(c: Scanner, answers: iset<int>, s: State)
    requires SpawnInv(c, s) && Enabled(c, s, Spawn)
    ensures Remaining(c, Apply(c, answers, s, Spawn)) < Remaining(c, s)
  {
    PendingNew(s.workers, c.Start(), s.next, s.next, Dialing);
  }

  lemma ReturnShrinks(c: Scanner, answers: iset<int>, s: State)
    requires Enabled(c, s, Return)
    ensures Remaining(c, Apply(c, answers, s, Return)) < Remaining(c, s)
  {
    hide Pending, Sort;
  }

  lemma StepShrinks(c: Scanner, answers: iset<int>, s: State, a: Action)
    requires SpawnInv(c, s) && Enabled(c, s, a) && (a.Release? ==> s.tokens > 0)
    ensures Remaining(c, Apply(c, answers, s, a)) < Remaining(c, s)
  {
    hide Pending, Remaining, SpawnInv, Sort;
    var t := Apply(c, answers, s, a);
    match a {
      case Spawn => SpawnShrinks(c, answers, s);
      case Return => ReturnShrinks(c, answers, s);
      case Dial(p) => MoveShrinks(c, s, t, p);
      case Append(p) => MoveShrinks(c, s, t, p);
      case Count(p) => MoveShrinks(c, s, t, p);
      case Report(p) => MoveShrinks(c, s, t, p);
      case Release(p) => MoveShrinks(c, s, t, p);
      case Exit(p) => MoveShrinks(c, s, t, p);
    }
  }

  /** Every schedule is finite: a scan takes at most seven steps a port and one to return. */
  lemma {:induction false} RunsAreBounded(c: Scanner, answers: iset<int>, s: State, schedule: seq<Action>)
    requires Inv(c, answers, s) && Feasible(c, answers, s, schedule)
    ensures |schedule| <= Remaining(c, s)
    decreases |schedule|
  {
    if schedule != [] {
      StepKeepsInv(c, answers, s, schedule[0]);
      StepShrinks(c, answers, s, schedule[0]);
      RunsAreBounded(c, answers, Apply(c, answers, s, schedule[0]), schedule[1..]);
    }
  }

  /** Hence every scan can be scheduled to its end, and by `NeverStuck` every maximal schedule is one. */
  lemma {:induction false} ScanReturns(c: Scanner, answers: iset<int>, s: State) returns (schedule: seq<Action>)
    requires Inv(c, answers, s)
    ensures Feasible(c, answers, s, schedule)
    ensures After(c, answers, s, schedule).outcome.Returned?
    decreases Remaining(c, s)
  {
    if s.outcome.Returned? {
      schedule := [];
    } else {
      var a := NeverStuck(c, answers, s);
      StepKeepsInv(c, answers, s, a);
      StepShrinks(c, answers, s, a);
      var rest := ScanReturns(c, answers, Apply(c, answers, s, a));
      schedule := [a] + rest;
    }
  }
}
