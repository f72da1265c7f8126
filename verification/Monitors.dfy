/** The UP/DOWN state machine of one monitor and its closed form over the result history. */
module Monitors {
  import opened Tables

  datatype Status = StatusUp | StatusDown

  datatype Transition = NoTransition | ToDown | ToUp

  /** A check result; the code treats every status other than "up" as a failure. */
  datatype CheckResult = CheckResult(monitor: string, status: string, error: string)

  datatype Mon = Mon(status: Status, threshold: int, failures: nat, lastError: string, totalChecks: nat, totalUp: nat)

  function NewMon(threshold: int): Mon {
    Mon(StatusUp, threshold, 0, "", 0, 0)
  }

  predicate Succeeds(r: CheckResult) { r.status == "up" }

  function Recorded(m: Mon, r: CheckResult): Mon {
    if Succeeds(r) then Mon(StatusUp, m.threshold, 0, "", m.totalChecks + 1, m.totalUp + 1)
    else Mon(if m.failures + 1 >= m.threshold then StatusDown else m.status,
             m.threshold, m.failures + 1, r.error, m.totalChecks + 1, m.totalUp)
  }

  function TransitionOf(before: Status, now: Status): Transition {
    if before == now then NoTransition else if now.StatusDown? then ToDown else ToUp
  }

  class MonitorState {
    const name: string
    var status: Status
    var failureThreshold: int
    var consecutiveFailures: nat
    var lastError: string
    var totalChecks: nat
    var totalUp: nat

    ghost function View(): Mon
      reads this
    {
      Mon(status, failureThreshold, consecutiveFailures, lastError, totalChecks, totalUp)
    }

    constructor (name: string, threshold: int)
      ensures this.name == name && View() == NewMon(threshold)
    {
      this.name := name;
      status, failureThreshold, consecutiveFailures, lastError := StatusUp, threshold, 0, "";
      totalChecks, totalUp := 0, 0;
    }

    method RecordResult(result: CheckResult) returns (t: Transition)
      modifies this
      ensures View() == Recorded(old(View()), result)
      ensures t == TransitionOf(old(status), status)
    {
      totalChecks := totalChecks + 1;
      if result.status == "up" {
        totalUp := totalUp + 1;
        consecutiveFailures := 0;
        lastError := "";
        if status == StatusDown {
          status := StatusUp;
          return ToUp;
        }
        return NoTransition;
      }
      consecutiveFailures := consecutiveFailures + 1;
      lastError := result.error;
      if status == StatusUp && consecutiveFailures >= failureThreshold {
        status := StatusDown;
        return ToDown;
      }
      return NoTransition;
    }

    method SetFailureThreshold(threshold: int)
      modifies this
      ensures View() == old(View()).(threshold := threshold)
    {
      failureThreshold := threshold;
    }

    method UptimePct() returns (pct: real)
      ensures totalChecks == 0 ==> pct == 100.0
      ensures totalChecks > 0 ==> pct * (totalChecks as real) == (totalUp as real) * 100.0
    {
      if totalChecks == 0 {
        return 100.0;
      }
      pct := (totalUp as real) / (totalChecks as real) * 100.0;
    }
  }

  // ---------------------------------------------------------------- closed form

  function History(threshold: int, rs: seq<CheckResult>): Mon {
    if rs == [] then NewMon(threshold) else Recorded(History(threshold, rs[..|rs| - 1]), rs[|rs| - 1])
  }

  /** The `n` most recent results exist and all failed. */
  ghost predicate LastFailed(rs: seq<CheckResult>, n: nat) {
    n <= |rs| && forall i | |rs| - n <= i < |rs| :: !Succeeds(rs[i])
  }

  /** A threshold below one acts like one. */
  function Effective(threshold: int): nat {
    if threshold < 1 then 1 else threshold
  }

  function CountUp(rs: seq<CheckResult>): nat {
    if rs == [] then 0 else CountUp(rs[..|rs| - 1]) + if Succeeds(rs[|rs| - 1]) then 1 else 0
  }

  /** The counter is the length of the run of failures at the end of the history. */
  lemma {:induction false} CounterIsTrailingRun(threshold: int, rs: seq<CheckResult>)
    ensures var n := History(threshold, rs).failures;
            LastFailed(rs, n) && (n < |rs| ==> Succeeds(rs[|rs| - 1 - n]))
  {
    if rs != [] {
      var k := |rs| - 1;
      CounterIsTrailingRun(threshold, rs[..k]);
      var n := History(threshold, rs[..k]).failures;
      assert forall i | 0 <= i < k :: rs[..k][i] == rs[i];
    }
  }

  /** The longest failing run is the counter. */
  lemma LastFailedIff(threshold: int, rs: seq<CheckResult>, n: nat)
    ensures LastFailed(rs, n) <==> n <= History(threshold, rs).failures
  {
    CounterIsTrailingRun(threshold, rs);
  }

  lemma {:induction false} DownIffCounter(threshold: int, rs: seq<CheckResult>)
    ensures History(threshold, rs).status.StatusDown? <==> History(threshold, rs).failures >= Effective(threshold)
    ensures History(threshold, rs).threshold == threshold
  {
    if rs != [] { DownIffCounter(threshold, rs[..|rs| - 1]); }
  }

  /** After any history, whatever the threshold, the monitor is DOWN iff the last `threshold`
      results all failed. */
  lemma DownIffLastFailed(threshold: int, rs: seq<CheckResult>)
    ensures History(threshold, rs).status.StatusDown? <==> LastFailed(rs, Effective(threshold))
  {
    DownIffCounter(threshold, rs);
    LastFailedIff(threshold, rs, Effective(threshold));
  }

  /** The transition to DOWN is reported exactly once per failing run, at the failure that completes
      the threshold; the transition to UP exactly at the first success after that. */
  lemma TransitionsAreEdges(threshold: int, rs: seq<CheckResult>, r: CheckResult)
    ensures var t := TransitionOf(History(threshold, rs).status, History(threshold, rs + [r]).status);
            && (t.ToDown? <==> LastFailed(rs + [r], Effective(threshold)) && !LastFailed(rs, Effective(threshold)))
            && (t.ToUp? <==> Succeeds(r) && LastFailed(rs, Effective(threshold)))
  {
    DownIffLastFailed(threshold, rs);
    DownIffLastFailed(threshold, rs + [r]);
    assert (rs + [r])[|rs|] == r;
    assert (rs + [r])[..|rs|] == rs;
    DownIffCounter(threshold, rs);
  }

  /** The totals count the history, so the uptime is a percentage. */
  lemma {:induction false} TotalsCount(threshold: int, rs: seq<CheckResult>)
    ensures History(threshold, rs).totalChecks == |rs|
    ensures History(threshold, rs).totalUp == CountUp(rs) <= |rs|
  {
    if rs != [] { TotalsCount(threshold, rs[..|rs| - 1]); }
  }

  // ---------------------------------------------------------------- the same count from the store

  const HEADROOM := 100

  /** The length of the run of "down" rows at the front. */
  function LeadingDown(rows: seq<Row<string>>): nat {
    if rows == [] || rows[0].value != "down" then 0 else 1 + LeadingDown(rows[1..])
  }

  method CountConsecutiveFailures(checkResults: seq<Row<string>>, monitor: string) returns (count: nat)
    ensures count == LeadingDown(Recent(checkResults, monitor, HEADROOM))
  {
    var results := Recent(checkResults, monitor, HEADROOM);
    count := 0;
    var i := 0;
    while i < |results|
      invariant i <= |results| && count == i
      invariant LeadingDown(results) == count + LeadingDown(results[i..])
    {
      if results[i].value != "down" {
        break;
      }
      count := count + 1;
      i := i + 1;
    }
  }

  lemma {:induction false} LeadingDownBound(rows: seq<Row<string>>, n: nat)
    requires forall i | 0 <= i < |rows| && i < n :: rows[i].value == "down"
    requires n < |rows| ==> rows[n].value != "down"
    ensures LeadingDown(rows) == if n <= |rows| then n else |rows|
    decreases |rows|
  {
    if rows != [] && n > 0 {
      assert forall i | 0 <= i < |rows| - 1 :: rows[1..][i] == rows[i + 1];
      LeadingDownBound(rows[1..], n - 1);
    }
  }

  /** The store of a monitor's results, with strictly increasing timestamps and nothing pruned,
      yields the state machine's counter, up to the hundred rows it looks at. */
  lemma StoreCountsTheSame(checkResults: seq<Row<string>>, monitor: string, threshold: int, rs: seq<CheckResult>)
    requires Chronological(checkResults)
    requires |Values(checkResults, monitor)| == |rs|
    requires forall i | 0 <= i < |rs| :: rs[i].status == Values(checkResults, monitor)[i]
    requires forall i | 0 <= i < |rs| :: rs[i].status == "up" || rs[i].status == "down"
    ensures LeadingDown(Recent(checkResults, monitor, HEADROOM)) ==
            var n := History(threshold, rs).failures; if n <= 100 then n else 100
  {
    var n := History(threshold, rs).failures;
    CounterIsTrailingRun(threshold, rs);
    RecentAreLast(checkResults, monitor, HEADROOM);
    LeadingDownBound(Recent(checkResults, monitor, HEADROOM), n);
  }
}
