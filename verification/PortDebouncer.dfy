/** What the scan handler computes over a whole history: for every port, a debouncer that holds
    the last value on which enough consecutive scans agreed, and alerts exactly when it flips. */
module PortDebouncer {
  import opened Sequences
  import opened Tables
  import opened PortDrift

  // ---------------------------------------------------------------- the declarative debouncer

  /** The events of one target, in order. */
  function Of(es: seq<Event>, target: string): seq<Event> {
    if es == [] then []
    else
      var n := |es| - 1;
      if es[n].target == target then Of(es[..n], target) + [es[n]] else Of(es[..n], target)
  }

  function ScansIn(es: seq<Event>): seq<seq<int>> {
    if es == [] then []
    else
      var n := |es| - 1;
      if es[n].Scan? then ScansIn(es[..n]) + [es[n].ports] else ScansIn(es[..n])
  }

  /** The `depth` most recent scans exist and all report the port as `open`. */
  predicate WindowAgrees(scans: seq<seq<int>>, depth: nat, p: int, open: bool) {
    |scans| >= depth && Agreed(scans[|scans| - depth..], p, open)
  }

  /** Event `i` of a target's history fixes what is believed about port `p`: it is the first
      event, an operator's accept, or a scan that completes an agreeing window. */
  predicate Settles(es: seq<Event>, i: nat, p: int)
    requires i < |es|
  {
    || i == 0
    || es[i].Accept?
    || WindowAgrees(ScansIn(es[..i + 1]), Depth(es[i].hysteresis), p, p in es[i].ports)
  }

  /** Scans of one target carry strictly increasing timestamps. */
  ghost predicate Clocked(es: seq<Event>) {
    forall i, j | 0 <= i < j < |es| && es[i].Scan? && es[j].Scan? && es[i].target == es[j].target ::
      es[i].at < es[j].at
  }

  // ---------------------------------------------------------------- the stored scans

  lemma {:induction false} StoredScans(es: seq<Event>, target: string)
    ensures Values(Run(es).scans, target) == ScansIn(Of(es, target))
  {
    if es != [] {
      var n := |es| - 1;
      var s := Run(es[..n]).scans;
      StoredScans(es[..n], target);
      if es[n].Scan? {
        var row := Row(es[n].target, es[n].at, es[n].ports);
        assert (s + [row])[..|s|] == s;
      }
      if es[n].target == target {
        assert (Of(es[..n], target) + [es[n]])[..|Of(es[..n], target)|] == Of(es[..n], target);
      }
    }
  }

  lemma {:induction false} RowsAreScans(es: seq<Event>, row: Row<seq<int>>)
    requires row in Run(es).scans
    ensures exists i :: 0 <= i < |es| && es[i].Scan? && es[i].target == row.key && es[i].at == row.at
  {
    var n := |es| - 1;
    if row in Run(es[..n]).scans {
      RowsAreScans(es[..n], row);
      var i :| 0 <= i < n && es[..n][i].Scan? && es[..n][i].target == row.key && es[..n][i].at == row.at;
      assert es[i] == es[..n][i];
    } else {
      assert es[n].Scan?;
    }
  }

  lemma {:induction false} StoredInOrder(es: seq<Event>)
    requires Clocked(es)
    ensures Chronological(Run(es).scans)
  {
    if es != [] {
      var n := |es| - 1;
      var s := Run(es[..n]).scans;
      StoredInOrder(es[..n]);
      forall i | 0 <= i < |s| && es[n].Scan? && s[i].key == es[n].target ensures s[i].at < es[n].at {
        RowsAreScans(es[..n], s[i]);
        var j :| 0 <= j < n && es[..n][j].Scan? && es[..n][j].target == s[i].key && es[..n][j].at == s[i].at;
        assert es[j] == es[..n][j];
      }
    }
  }

  // ---------------------------------------------------------------- one scan

  /** Agreement does not depend on the direction in which a window is listed. */
  lemma AgreedReversed(a: seq<seq<int>>, b: seq<seq<int>>, p: int, open: bool)
    requires |a| == |b| && forall i | 0 <= i < |a| :: a[i] == b[|b| - 1 - i]
    ensures Agreed(a, p, open) == Agreed(b, p, open)
  {
    assert forall i | 0 <= i < |b| :: b[i] == a[|a| - 1 - i];
  }

  /** The newest scans, newest first, are the last ones of the history, backwards. */
  lemma RecentReversed(scans: seq<Row<seq<int>>>, target: string, k: nat)
    requires Chronological(scans) && |Values(scans, target)| >= k
    ensures var h, recent := Values(scans, target), Ports(Recent(scans, target, k));
            |recent| == k && forall i | 0 <= i < k :: recent[i] == h[|h| - 1 - i]
  {
    hide NewestFirst, Values, Recent, Chronological;
    RecentAreLast(scans, target, k);
  }

  lemma LastBackwards(h: seq<seq<int>>, recent: seq<seq<int>>, k: nat, p: int, open: bool)
    requires |h| >= k == |recent| && forall i | 0 <= i < k :: recent[i] == h[|h| - 1 - i]
    ensures Agreed(recent[..k], p, open) == Agreed(h[|h| - k..], p, open)
  {
    hide Agreed;
    assert recent[..k] == recent;
    AgreedReversed(recent, h[|h| - k..], p, open);
  }

  /** The newest scans agree iff the last ones of the history do. */
  lemma RecentAgree(scans: seq<Row<seq<int>>>, target: string, k: nat, p: int, open: bool)
    requires Chronological(scans) && |Values(scans, target)| >= k
    ensures var h, recent := Values(scans, target), Ports(Recent(scans, target, k));
            |recent| == k && Agreed(recent[..k], p, open) == Agreed(h[|h| - k..], p, open)
  {
    hide Values, Recent, Chronological, Ports, Agreed;
    RecentReversed(scans, target, k);
    LastBackwards(Values(scans, target), Ports(Recent(scans, target, k)), k, p, open);
  }

  lemma FewRecent(scans: seq<Row<seq<int>>>, target: string, k: nat)
    requires Chronological(scans) && |Values(scans, target)| < k
    ensures |Ports(Recent(scans, target, k))| < k
  {
    hide NewestFirst, Values;
    RecentAreLast(scans, target, k);
  }

  /** The hysteresis filter reports a drifted port iff the newest scans agree on it. */
  lemma ReportedIff(scans: seq<Row<seq<int>>>, target: string, hysteresis: int, candidates: seq<int>, p: int,
                    open: bool)
    requires Chronological(scans)
    requires Values(scans, target) != []
    requires p in candidates ==> (p in Values(scans, target)[|Values(scans, target)| - 1]) == open
    ensures var h := Values(scans, target); var k := Depth(hysteresis);
            p in Confirmed(candidates, Ports(Recent(scans, target, k)), hysteresis, open)
            <==> p in candidates && WindowAgrees(h, k, p, open)
  {
    hide NewestFirst, Values, Chronological, Recent, Ports, Agreed;
    var h, k := Values(scans, target), Depth(hysteresis);
    if hysteresis > 1 {
      if |h| >= k { RecentAgree(scans, target, k, p, open); } else { FewRecent(scans, target, k); }
    } else {
      LastAgrees(h, p, open);
    }
  }

  lemma LastAgrees(h: seq<seq<int>>, p: int, open: bool)
    requires h != []
    ensures Agreed(h[|h| - 1..], p, open) <==> (p in h[|h| - 1]) == open
  {
  }

  /** After a scan the baseline holds the scan's value for `p` if the window agrees, and its old
      value otherwise; an alert about `p` is sent iff that changed the value. */
  lemma ScanEffect(s: State, e: Event, p: int)
    requires e.Scan? && e.target in s.baselines
    requires Chronological(s.scans + [Row(e.target, e.at, e.ports)])
    ensures var h := Values(s.scans, e.target) + [e.ports];
            var agrees := WindowAgrees(h, Depth(e.hysteresis), p, p in e.ports);
            var was := p in s.baselines[e.target];
            && e.target in Step(s, e).baselines
            && (p in Step(s, e).baselines[e.target] <==> if agrees then p in e.ports else was)
  {
    var scans := s.scans + [Row(e.target, e.at, e.ports)];
    var baseline := s.baselines[e.target];
    assert scans[..|scans| - 1] == s.scans;
    SortElements(Without(e.ports, baseline));
    SortElements(Without(baseline, e.ports));
    ReportedIff(scans, e.target, e.hysteresis, Sort(Without(e.ports, baseline)), p, true);
    ReportedIff(scans, e.target, e.hysteresis, Sort(Without(baseline, e.ports)), p, false);
  }

  lemma {:induction false} OtherTargets(es: seq<Event>, target: string)
    ensures target in Run(es).baselines <==> Of(es, target) != []
  {
    if es != [] {
      OtherTargets(es[..|es| - 1], target);
    }
  }

  lemma ClockedPrefix(es: seq<Event>)
    requires Clocked(es) && es != []
    ensures Clocked(es[..|es| - 1])
  {
    var n := |es| - 1;
    forall i, j | 0 <= i < j < n && es[..n][i].Scan? && es[..n][j].Scan? && es[..n][i].target == es[..n][j].target
      ensures es[..n][i].at < es[..n][j].at
    {
      assert es[..n][i] == es[i] && es[..n][j] == es[j];
    }
  }

  lemma SettlesPrefix(h: seq<Event>, e: Event, p: int)
    ensures forall i | 0 <= i < |h| :: Settles(h + [e], i, p) == Settles(h, i, p)
  {
    forall i | 0 <= i < |h| ensures Settles(h + [e], i, p) == Settles(h, i, p) {
      assert (h + [e])[..i + 1] == h[..i + 1];
    }
  }

  lemma RunStep(es: seq<Event>, e: Event)
    ensures Run(es + [e]) == Step(Run(es), e)
  {
    assert (es + [e])[..|es|] == es;
  }

  lemma ScanInRun(es: seq<Event>, e: Event, p: int)
    requires Clocked(es + [e]) && e.Scan? && e.target in Run(es).baselines
    ensures var h := ScansIn(Of(es, e.target)) + [e.ports];
            && e.target in Step(Run(es), e).baselines
            && (p in Step(Run(es), e).baselines[e.target] <==>
                if WindowAgrees(h, Depth(e.hysteresis), p, p in e.ports) then p in e.ports
                else p in Run(es).baselines[e.target])
  {
    StoredScans(es, e.target);
    StoredInOrder(es + [e]);
    RunStep(es, e);
    ScanEffect(Run(es), e, p);
  }

  lemma SettlesNow(before: seq<Event>, e: Event, p: int)
    ensures Settles(before + [e], |before|, p) ==
            (|| before == [] || e.Accept?
             || WindowAgrees(ScansIn(before) + [e.ports], Depth(e.hysteresis), p, p in e.ports))
  {
    assert (before + [e])[..|before| + 1] == before + [e];
    assert (before + [e])[..|before|] == before;
  }

  lemma SetsBaseline(s: State, e: Event)
    requires e.Accept? || e.target !in s.baselines
    ensures e.target in Step(s, e).baselines && Step(s, e).baselines[e.target] == e.ports
  {
  }

  /** An event of a target moves the believed value of `p` iff it settles it. */
  lemma BaselineStep(es: seq<Event>, e: Event, p: int)
    requires Clocked(es + [e])
    ensures e.target in Run(es + [e]).baselines
    ensures Settles(Of(es, e.target) + [e], |Of(es, e.target)|, p) ==>
              (p in Run(es + [e]).baselines[e.target] <==> p in e.ports)
    ensures !Settles(Of(es, e.target) + [e], |Of(es, e.target)|, p) ==>
              && e.target in Run(es).baselines
              && (p in Run(es + [e]).baselines[e.target] <==> p in Run(es).baselines[e.target])
  {
    RunStep(es, e);
    OtherTargets(es, e.target);
    SettlesNow(Of(es, e.target), e, p);
    if e.Accept? || e.target !in Run(es).baselines {
      SetsBaseline(Run(es), e);
    } else {
      ScanInRun(es, e, p);
    }
  }

  lemma LeavesOthers(s: State, e: Event, target: string)
    requires e.target != target
    ensures target in Step(s, e).baselines <==> target in s.baselines
    ensures target in s.baselines ==> Step(s, e).baselines[target] == s.baselines[target]
  {
  }

  lemma OfStep(es: seq<Event>, e: Event, target: string)
    ensures Of(es + [e], target) == if e.target == target then Of(es, target) + [e] else Of(es, target)
  {
    assert (es + [e])[..|es|] == es;
  }

  // ---------------------------------------------------------------- main theorem

  /** The value of `p` at the last event that settles it. */
  function Believed(h: seq<Event>, p: int): bool
    requires h != []
  {
    if Settles(h, |h| - 1, p) then p in h[|h| - 1].ports else Believed(h[..|h| - 1], p)
  }

  lemma BelievedStep(h: seq<Event>, e: Event, p: int)
    ensures Settles(h + [e], |h|, p) ==> Believed(h + [e], p) == (p in e.ports)
    ensures !Settles(h + [e], |h|, p) ==> h != [] && Believed(h + [e], p) == Believed(h, p)
  {
    hide Settles;
    assert (h + [e])[..|h|] == h && (h + [e])[|h|] == e;
    if h == [] { FirstSettles(e, p); }
  }

  lemma FirstSettles(e: Event, p: int)
    ensures Settles([] + [e], 0, p)
  {
  }

  lemma {:induction false} BaselineIsBelieved(es: seq<Event>, target: string, p: int)
    requires Clocked(es) && Of(es, target) != []
    ensures target in Run(es).baselines
    ensures p in Run(es).baselines[target] <==> Believed(Of(es, target), p)
  {
    var n := |es| - 1;
    var e, es' := es[n], es[..n];
    ClockedPrefix(es);
    assert es == es' + [e];
    OfStep(es', e, target);
    if e.target != target {
      BaselineIsBelieved(es', target, p);
      RunStep(es', e);
      LeavesOthers(Run(es'), e, target);
    } else {
      BaselineStep(es', e, p);
      BelievedStep(Of(es', target), e, p);
      if !Settles(Of(es', target) + [e], |Of(es', target)|, p) {
        BaselineIsBelieved(es', target, p);
      }
    }
  }

  lemma {:induction false} BelievedAtLastSettling(h: seq<Event>, p: int, j: nat)
    requires j < |h| && Settles(h, j, p)
    requires forall i | j < i < |h| :: !Settles(h, i, p)
    ensures Believed(h, p) == (p in h[j].ports)
  {
    var n := |h| - 1;
    if j < n {
      assert h == h[..n] + [h[n]];
      SettlesPrefix(h[..n], h[n], p);
      BelievedAtLastSettling(h[..n], p, j);
    }
  }

  /** Debouncer refinement. After any history, over any interleaving of targets and accepts, the
      stored baseline of a target holds port `p` iff the last event that settled `p` did. */
  lemma BaselineIsDebounced(es: seq<Event>, target: string, p: int, j: nat)
    requires Clocked(es)
    requires j < |Of(es, target)| && Settles(Of(es, target), j, p)
    requires forall i | j < i < |Of(es, target)| :: !Settles(Of(es, target), i, p)
    ensures target in Run(es).baselines
    ensures p in Run(es).baselines[target] <==> p in Of(es, target)[j].ports
  {
    BaselineIsBelieved(es, target, p);
    BelievedAtLastSettling(Of(es, target), p, j);
  }

  /** Some event always settles a port once the target has a history. */
  lemma SomeEventSettles(h: seq<Event>, p: int) returns (j: nat)
    requires h != []
    ensures j < |h| && Settles(h, j, p)
    ensures forall i | j < i < |h| :: !Settles(h, i, p)
  {
    j := |h| - 1;
    while !Settles(h, j, p)
      invariant j < |h|
      invariant forall i | j < i < |h| :: !Settles(h, i, p)
      decreases j
    {
      j := j - 1;
    }
  }
}
