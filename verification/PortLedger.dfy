/** The alerts a target's scans produce, port by port: one alert per flip of the stored baseline. */
module PortLedger {
  import opened Sequences
  import opened Tables
  import opened PortDrift
  import opened PortDebouncer

  /** The kinds of alert sent for one port of one target, in order. */
  function Ledger(alerts: seq<Alert>, target: string, p: int): seq<Kind> {
    if alerts == [] then []
    else
      var n := |alerts| - 1;
      var rest := Ledger(alerts[..n], target, p);
      if alerts[n].target == target && alerts[n].port == p then rest + [alerts[n].kind] else rest
  }

  function KindOf(open: bool): Kind {
    if open then NewPort else PortGone
  }

  /** No event reports a port twice; `Scan` guarantees it and an accept copies a scan. */
  ghost predicate Tidy(es: seq<Event>) {
    forall i | 0 <= i < |es| :: Distinct(es[i].ports)
  }

  lemma {:induction false} LedgerConcat(a: seq<Alert>, b: seq<Alert>, target: string, p: int)
    ensures Ledger(a + b, target, p) == Ledger(a, target, p) + Ledger(b, target, p)
  {
    if b == [] {
      assert a + b == a;
    } else {
      var n := |b| - 1;
      LedgerConcat(a, b[..n], target, p);
      assert (a + b)[..|a + b| - 1] == a + b[..n];
    }
  }

  lemma LedgerStepOf(alerts: seq<Alert>, a: Alert, target: string, p: int)
    ensures Ledger(alerts + [a], target, p) ==
            Ledger(alerts, target, p) + if a.target == target && a.port == p then [a.kind] else []
  {
    assert (alerts + [a])[..|alerts|] == alerts;
  }

  lemma DistinctInit(ports: seq<int>)
    requires Distinct(ports) && ports != []
    ensures Distinct(ports[..|ports| - 1]) && ports[|ports| - 1] !in ports[..|ports| - 1]
    ensures ports == ports[..|ports| - 1] + [ports[|ports| - 1]]
  {
  }

  lemma {:induction false} LedgerOfAlerts(alerted: string, kind: Kind, ports: seq<int>, target: string, p: int)
    requires Distinct(ports)
    ensures Ledger(Alerts(alerted, kind, ports), target, p) ==
            if alerted == target && p in ports then [kind] else []
  {
    hide Distinct, Ledger;
    if ports == [] {
      NothingSaidOf(alerted, kind, target, p);
    } else {
      var n := |ports| - 1;
      DistinctInit(ports);
      LedgerOfAlerts(alerted, kind, ports[..n], target, p);
      assert Alerts(alerted, kind, ports) == Alerts(alerted, kind, ports[..n]) + [Alert(alerted, kind, ports[n])];
      LedgerStepOf(Alerts(alerted, kind, ports[..n]), Alert(alerted, kind, ports[n]), target, p);
    }
  }

  lemma NothingSaidOf(alerted: string, kind: Kind, target: string, p: int)
    ensures Ledger(Alerts(alerted, kind, []), target, p) == []
  {
  }

  lemma {:induction false} WithoutDistinct(xs: seq<int>, ys: seq<int>)
    requires Distinct(xs)
    ensures Distinct(Without(xs, ys))
  {
    if xs != [] {
      var n := |xs| - 1;
      WithoutDistinct(xs[..n], ys);
      assert xs[n] !in xs[..n];
    }
  }

  lemma {:induction false} SteadyDistinct(ports: seq<int>, window: seq<seq<int>>, open: bool)
    requires Distinct(ports)
    ensures Distinct(Steady(ports, window, open))
  {
    if ports != [] {
      var n := |ports| - 1;
      SteadyDistinct(ports[..n], window, open);
      assert ports[n] !in ports[..n];
    }
  }

  lemma ConfirmedDistinct(xs: seq<int>, ys: seq<int>, recent: seq<seq<int>>, hysteresis: int, open: bool)
    requires Distinct(xs)
    ensures Distinct(Confirmed(Sort(Without(xs, ys)), recent, hysteresis, open))
  {
    WithoutDistinct(xs, ys);
    SortDistinct(Without(xs, ys));
    if hysteresis > 1 && |recent| >= hysteresis {
      SteadyDistinct(Sort(Without(xs, ys)), recent[..hysteresis], open);
    }
  }

  lemma ConfirmedAreCandidates(ports: seq<int>, recent: seq<seq<int>>, hysteresis: int, open: bool, p: int)
    requires p in Confirmed(ports, recent, hysteresis, open)
    ensures p in ports
  {
  }

  /** A scan alerts on a port exactly when it flips the port in the baseline, once. */
  lemma ScanAlerts(s: State, e: Event, target: string, p: int)
    requires e.Scan? && e.target in s.baselines
    requires Distinct(e.ports) && Distinct(s.baselines[e.target])
    ensures e.target in Step(s, e).baselines
    ensures var now := p in Step(s, e).baselines[e.target];
            Ledger(Step(s, e).alerts, target, p) == Ledger(s.alerts, target, p) +
              if e.target == target && now != (p in s.baselines[e.target]) then [KindOf(now)] else []
  {
    hide Ledger, Confirmed;
    var t, baseline := e.target, s.baselines[e.target];
    var recent := Ports(Recent(s.scans + [Row(t, e.at, e.ports)], t, Depth(e.hysteresis)));
    var appeared := Confirmed(Sort(Without(e.ports, baseline)), recent, e.hysteresis, true);
    var vanished := Confirmed(Sort(Without(baseline, e.ports)), recent, e.hysteresis, false);
    assert (p in appeared ==> p !in baseline) && (p in vanished ==> p in baseline && p !in appeared) by {
      SortElements(Without(e.ports, baseline));
      SortElements(Without(baseline, e.ports));
      if p in appeared {
        ConfirmedAreCandidates(Sort(Without(e.ports, baseline)), recent, e.hysteresis, true, p);
      }
      if p in vanished {
        ConfirmedAreCandidates(Sort(Without(baseline, e.ports)), recent, e.hysteresis, false, p);
      }
    }
    assert Ledger(Alerts(t, NewPort, appeared), target, p) ==
           if t == target && p in appeared then [NewPort] else [] by {
      ConfirmedDistinct(e.ports, baseline, recent, e.hysteresis, true);
      LedgerOfAlerts(t, NewPort, appeared, target, p);
    }
    assert Ledger(Alerts(t, PortGone, vanished), target, p) ==
           if t == target && p in vanished then [PortGone] else [] by {
      ConfirmedDistinct(baseline, e.ports, recent, e.hysteresis, false);
      LedgerOfAlerts(t, PortGone, vanished, target, p);
    }
    LedgerConcat(s.alerts + Alerts(t, NewPort, appeared), Alerts(t, PortGone, vanished), target, p);
    LedgerConcat(s.alerts, Alerts(t, NewPort, appeared), target, p);
    assert Step(s, e).alerts == s.alerts + Alerts(t, NewPort, appeared) + Alerts(t, PortGone, vanished);
  }

  lemma StepTidy(s: State, e: Event, target: string)
    requires Distinct(e.ports)
    requires target in s.baselines ==> Distinct(s.baselines[target])
    requires target in Step(s, e).baselines
    ensures Distinct(Step(s, e).baselines[target])
  {
    if e.Scan? && e.target == target && target in s.baselines && Step(s, e).baselines != s.baselines {
      assert StrictlyAscending(Step(s, e).baselines[target]);
    }
  }

  lemma {:induction false} BaselinesTidy(es: seq<Event>, target: string)
    requires Tidy(es) && target in Run(es).baselines
    ensures Distinct(Run(es).baselines[target])
  {
    if es != [] {
      var n := |es| - 1;
      if target in Run(es[..n]).baselines {
        BaselinesTidy(es[..n], target);
      }
      StepTidy(Run(es[..n]), es[n], target);
    }
  }

  /** An accept sends nothing, and neither does the first scan of a target. */
  lemma SilentStep(s: State, e: Event)
    requires e.Accept? || e.target !in s.baselines
    ensures Step(s, e).alerts == s.alerts
  {
  }

  /** What any event adds to any ledger: nothing, unless it is a scan of that target, the target had a baseline, and
      the scan flips the port in it. */
  lemma LedgerEffect(es: seq<Event>, e: Event, target: string, p: int)
    requires Tidy(es) && Distinct(e.ports)
    ensures e.target in Run(es + [e]).baselines
    ensures var before, after := Run(es), Run(es + [e]);
            Ledger(after.alerts, target, p) == Ledger(before.alerts, target, p) +
              if e.Scan? && e.target == target && target in before.baselines
                 && (p in before.baselines[target]) != (p in after.baselines[target])
              then [KindOf(p in after.baselines[target])] else []
  {
    hide Ledger, Step, Run;
    RunStep(es, e);
    if e.Accept? || e.target !in Run(es).baselines {
      SilentStep(Run(es), e);
      SetsBaseline(Run(es), e);
    } else {
      BaselinesTidy(es, e.target);
      ScanAlerts(Run(es), e, target, p);
    }
  }

  /** Nothing is said about a target's ports before its second event. */
  lemma {:induction false} SilentBeforeSecond(es: seq<Event>, target: string, p: int)
    requires Tidy(es) && |Of(es, target)| <= 1
    ensures Ledger(Run(es).alerts, target, p) == []
  {
    hide Ledger, Step, Run;
    if es == [] {
      NothingSaid(target, p);
    } else {
      var n := |es| - 1;
      assert es == es[..n] + [es[n]];
      TidyPrefix(es[..n], es[n]);
      OfStep(es[..n], es[n], target);
      SilentBeforeSecond(es[..n], target, p);
      LedgerEffect(es[..n], es[n], target, p);
      OtherTargets(es[..n], target);
    }
  }

  lemma NothingSaid(target: string, p: int)
    ensures Ledger(Run([]).alerts, target, p) == []
  {
  }

  lemma {:induction false} SteadyAscending(ports: seq<int>, window: seq<seq<int>>, open: bool)
    requires StrictlyAscending(ports)
    ensures StrictlyAscending(Steady(ports, window, open))
  {
    if ports != [] {
      var n := |ports| - 1;
      SteadyAscending(ports[..n], window, open);
      forall x | x in ports[..n] ensures x < ports[n] {
        var i :| 0 <= i < n && ports[i] == x;
      }
      assert forall x | x in Steady(ports[..n], window, open) :: x in ports[..n];
      AscendingThen(Steady(ports[..n], window, open), ports[n]);
    }
  }

  lemma AscendingThen(xs: seq<int>, x: int)
    requires StrictlyAscending(xs) && forall y | y in xs :: y < x
    ensures StrictlyAscending(xs + [x])
  {
    forall i | 0 <= i < |xs| ensures xs[i] < x { assert xs[i] in xs; }
  }

  lemma ConfirmedAscending(xs: seq<int>, ys: seq<int>, recent: seq<seq<int>>, hysteresis: int, open: bool)
    requires Distinct(xs)
    ensures StrictlyAscending(Confirmed(Sort(Without(xs, ys)), recent, hysteresis, open))
  {
    hide Sort, Without, Steady;
    WithoutDistinct(xs, ys);
    SortDistinct(Without(xs, ys));
    if hysteresis > 1 && |recent| >= hysteresis {
      SteadyAscending(Sort(Without(xs, ys)), recent[..hysteresis], open);
    }
  }

  /** The alerts of one scan: the ports it opens in the baseline, ascending, and then those it closes, ascending. */
  lemma AlertsOfScan(s: State, e: Event) returns (added: seq<int>, removed: seq<int>)
    requires e.Scan? && e.target in s.baselines
    requires Distinct(e.ports) && Distinct(s.baselines[e.target])
    ensures Step(s, e).alerts == s.alerts + Alerts(e.target, NewPort, added) + Alerts(e.target, PortGone, removed)
    ensures e.target in Step(s, e).baselines && StrictlyAscending(added) && StrictlyAscending(removed)
    ensures forall p :: p in added <==> p in Step(s, e).baselines[e.target] && p !in s.baselines[e.target]
    ensures forall p :: p in removed <==> p in s.baselines[e.target] && p !in Step(s, e).baselines[e.target]
  {
    hide Confirmed, Sort, Without, Recent, Drifted;
    var t, baseline := e.target, s.baselines[e.target];
    var recent := Ports(Recent(s.scans + [Row(t, e.at, e.ports)], t, Depth(e.hysteresis)));
    added := Confirmed(Sort(Without(e.ports, baseline)), recent, e.hysteresis, true);
    removed := Confirmed(Sort(Without(baseline, e.ports)), recent, e.hysteresis, false);
    ConfirmedAscending(e.ports, baseline, recent, e.hysteresis, true);
    ConfirmedAscending(baseline, e.ports, recent, e.hysteresis, false);
    SortElements(Without(e.ports, baseline));
    SortElements(Without(baseline, e.ports));
    forall p | p in added ensures p in e.ports && p !in baseline {
      ConfirmedAreCandidates(Sort(Without(e.ports, baseline)), recent, e.hysteresis, true, p);
    }
    forall p | p in removed ensures p in baseline && p !in e.ports {
      ConfirmedAreCandidates(Sort(Without(baseline, e.ports)), recent, e.hysteresis, false, p);
    }
  }

  /** The ledger effect of any event that is not an accept. */
  lemma LedgerStep(es: seq<Event>, e: Event, target: string, p: int)
    requires Tidy(es) && Distinct(e.ports)
    requires target in Run(es).baselines
    requires e.Accept? ==> e.target != target
    ensures target in Run(es + [e]).baselines
    ensures var now := p in Run(es + [e]).baselines[target];
            Ledger(Run(es + [e]).alerts, target, p) == Ledger(Run(es).alerts, target, p) +
              if now != (p in Run(es).baselines[target]) then [KindOf(now)] else []
  {
    hide Ledger, Step, Run;
    LedgerEffect(es, e, target, p);
    if e.target != target {
      RunStep(es, e);
      LeavesOthers(Run(es), e, target);
    }
  }

  /** `kinds` strictly alternates, takes a port that is in the baseline iff `first` to one that is
      iff `last`, and each entry is the value it leads to. */
  predicate Alternates(kinds: seq<Kind>, first: bool, last: bool) {
    if kinds == [] then first == last
    else kinds[|kinds| - 1] == KindOf(last) && Alternates(kinds[..|kinds| - 1], first, !last)
  }

  ghost predicate NoAccepts(es: seq<Event>, target: string) {
    forall i | 0 <= i < |es| && es[i].Accept? :: es[i].target != target
  }

  lemma TidyPrefix(es: seq<Event>, e: Event)
    requires Tidy(es + [e])
    ensures Tidy(es) && Distinct(e.ports)
  {
    assert forall i | 0 <= i < |es| :: es[i] == (es + [e])[i];
    assert (es + [e])[|es|] == e;
  }

  lemma AlternatesStep(kinds: seq<Kind>, first: bool, last: bool, now: bool)
    requires Alternates(kinds, first, last)
    ensures Alternates(kinds + if now != last then [KindOf(now)] else [], first, now)
  {
    if now != last {
      assert (kinds + [KindOf(now)])[..|kinds|] == kinds;
    } else {
      assert kinds + [] == kinds;
    }
  }

  /** Port alert ledger. From any point on, as long as no one accepts a new baseline, the alerts
      about a port alternate and account exactly for the change of the baseline. */
  lemma {:induction false} AlertsAlternate(pre: seq<Event>, es: seq<Event>, target: string, p: int)
    returns (sent: seq<Kind>)
    requires Tidy(pre + es) && NoAccepts(es, target)
    requires target in Run(pre).baselines
    ensures target in Run(pre + es).baselines
    ensures Ledger(Run(pre + es).alerts, target, p) == Ledger(Run(pre).alerts, target, p) + sent
    ensures Alternates(sent, p in Run(pre).baselines[target], p in Run(pre + es).baselines[target])
  {
    hide Run, Ledger;
    if es == [] {
      assert pre + es == pre;
      sent := [];
    } else {
      var n := |es| - 1;
      var all, e := pre + es[..n], es[n];
      assert pre + es == all + [e];
      TidyPrefix(all, e);
      var earlier := AlertsAlternate(pre, es[..n], target, p);
      LedgerStep(all, e, target, p);
      var last, now := p in Run(all).baselines[target], p in Run(all + [e]).baselines[target];
      AlternatesStep(earlier, p in Run(pre).baselines[target], last, now);
      sent := earlier + if now != last then [KindOf(now)] else [];
    }
  }

  // ---------------------------------------------------------------- how long a deviation lasts

  /** Every event of the target is a scan with this hysteresis that sees `p` as `open`. */
  ghost predicate Deviation(es: seq<Event>, target: string, hysteresis: int, p: int, open: bool) {
    forall i | 0 <= i < |es| && es[i].target == target ::
      es[i].Scan? && es[i].hysteresis == hysteresis && (p in es[i].ports) == open
  }

  lemma DeviationPrefix(es: seq<Event>, e: Event, target: string, hysteresis: int, p: int, open: bool)
    requires Deviation(es + [e], target, hysteresis, p, open)
    ensures Deviation(es, target, hysteresis, p, open)
    ensures e.target == target ==> e.Scan? && e.hysteresis == hysteresis && (p in e.ports) == open
  {
    assert forall i | 0 <= i < |es| :: es[i] == (es + [e])[i];
    assert (es + [e])[|es|] == e;
  }

  lemma ScansInStep(h: seq<Event>, e: Event)
    ensures ScansIn(h + [e]) == if e.Scan? then ScansIn(h) + [e.ports] else ScansIn(h)
  {
    assert (h + [e])[..|h|] == h;
  }

  /** `g` is `h` followed by `m` scans that see `p` as `open`. */
  ghost predicate ExtendsBy(h: seq<seq<int>>, g: seq<seq<int>>, m: nat, p: int, open: bool) {
    && |g| == |h| + m
    && (forall i | 0 <= i < |h| :: g[i] == h[i])
    && forall i | |h| <= i < |g| :: (p in g[i]) == open
  }

  lemma ExtendOnce(h: seq<seq<int>>, g: seq<seq<int>>, m: nat, ports: seq<int>, p: int, open: bool)
    requires ExtendsBy(h, g, m, p, open) && (p in ports) == open
    ensures ExtendsBy(h, g + [ports], m + 1, p, open)
  {
  }

  lemma NoScansMore(pre: seq<Event>, es: seq<Event>, target: string, p: int, open: bool)
    requires es == []
    ensures ExtendsBy(ScansIn(Of(pre, target)), ScansIn(Of(pre + es, target)), |Of(es, target)|, p, open)
  {
    assert pre + es == pre;
  }

  lemma {:induction false} DeviatingScans(pre: seq<Event>, es: seq<Event>, target: string, hysteresis: int, p: int,
                                          open: bool)
    requires Deviation(es, target, hysteresis, p, open)
    ensures ExtendsBy(ScansIn(Of(pre, target)), ScansIn(Of(pre + es, target)), |Of(es, target)|, p, open)
  {
    hide *;
    if es == [] {
      NoScansMore(pre, es, target, p, open);
    } else {
      var n := |es| - 1;
      var e, es' := es[n], es[..n];
      assert pre + es == (pre + es') + [e] && es == es' + [e];
      DeviationPrefix(es', e, target, hysteresis, p, open);
      DeviatingScans(pre, es', target, hysteresis, p, open);
      OfStep(pre + es', e, target);
      OfStep(es', e, target);
      if e.target == target {
        ScansInStep(Of(pre + es', target), e);
        ExtendOnce(ScansIn(Of(pre, target)), ScansIn(Of(pre + es', target)), |Of(es', target)|, e.ports, p, open);
      }
    }
  }

  lemma WindowWithinDeviation(g: seq<seq<int>>, start: nat, k: nat, p: int, open: bool)
    requires 0 < start < |g| && k >= 1
    requires (p in g[start - 1]) != open
    requires forall i | start <= i < |g| :: (p in g[i]) == open
    ensures WindowAgrees(g, k, p, open) <==> |g| - start >= k
  {
    if |g| >= k {
      var window := g[|g| - k..];
      assert forall i | 0 <= i < k :: window[i] == g[|g| - k + i];
      if |g| - start < k {
        assert window[start - 1 - (|g| - k)] == g[start - 1];
      }
    }
  }

  lemma DeviationWindow(pre: seq<Event>, es: seq<Event>, e: Event, hysteresis: int, p: int, open: bool)
    requires e.Scan? && (p in e.ports) == open
    requires Deviation(es, e.target, hysteresis, p, open)
    requires var h := ScansIn(Of(pre, e.target)); h != [] && (p in h[|h| - 1]) != open
    ensures WindowAgrees(ScansIn(Of(pre + es, e.target)) + [e.ports], Depth(hysteresis), p, open)
            <==> |Of(es, e.target)| + 1 >= Depth(hysteresis)
  {
    var h := ScansIn(Of(pre, e.target));
    var g := ScansIn(Of(pre + es, e.target));
    DeviatingScans(pre, es, e.target, hysteresis, p, open);
    WindowWithinDeviation(g + [e.ports], |h|, Depth(hysteresis), p, open);
  }

  /** One more scan of a deviation: the baseline takes the value iff the window is now full. */
  lemma DeviationStep(pre: seq<Event>, es: seq<Event>, e: Event, hysteresis: int, p: int, open: bool)
    requires Clocked(pre + es + [e])
    requires e.Scan? && (p in e.ports) == open && e.hysteresis == hysteresis
    requires Deviation(es, e.target, hysteresis, p, open)
    requires var h := ScansIn(Of(pre, e.target)); h != [] && (p in h[|h| - 1]) != open
    requires e.target in Run(pre + es).baselines
    ensures e.target in Run(pre + es + [e]).baselines
    ensures (p in Run(pre + es + [e]).baselines[e.target]) ==
            if |Of(es, e.target)| + 1 >= Depth(hysteresis) then open
            else p in Run(pre + es).baselines[e.target]
  {
    RunStep(pre + es, e);
    ScanInRun(pre + es, e, p);
    DeviationWindow(pre, es, e, hysteresis, p, open);
  }

  lemma OtherStep(es: seq<Event>, e: Event, target: string)
    requires e.target != target
    ensures target in Run(es + [e]).baselines <==> target in Run(es).baselines
    ensures target in Run(es).baselines ==> Run(es + [e]).baselines[target] == Run(es).baselines[target]
  {
    RunStep(es, e);
    LeavesOthers(Run(es), e, target);
  }

  /** What a deviation has led to: flipped and alerted once if it is `depth` scans long, else nothing. */
  ghost predicate DeviationOutcome(pre: seq<Event>, now: seq<Event>, scans: nat, depth: nat, target: string, p: int,
                                   open: bool) {
    && target in Run(now).baselines
    && (p in Run(now).baselines[target]) == (if scans >= depth then open else !open)
    && Ledger(Run(now).alerts, target, p) ==
       Ledger(Run(pre).alerts, target, p) + if scans >= depth then [KindOf(open)] else []
  }

  lemma OutcomeKept(pre: seq<Event>, all: seq<Event>, e: Event, scans: nat, depth: nat, target: string, p: int,
                    open: bool)
    requires Tidy(all) && Distinct(e.ports) && e.target != target
    requires DeviationOutcome(pre, all, scans, depth, target, p, open)
    ensures DeviationOutcome(pre, all + [e], scans, depth, target, p, open)
  {
    hide Run, Ledger;
    LedgerStep(all, e, target, p);
    OtherStep(all, e, target);
  }

  lemma OutcomeExtended(pre: seq<Event>, all: seq<Event>, e: Event, scans: nat, depth: nat, p: int, open: bool)
    requires Tidy(all) && Distinct(e.ports) && e.Scan?
    requires DeviationOutcome(pre, all, scans, depth, e.target, p, open)
    requires e.target in Run(all + [e]).baselines
    requires (p in Run(all + [e]).baselines[e.target]) ==
             if scans + 1 >= depth then open else p in Run(all).baselines[e.target]
    ensures DeviationOutcome(pre, all + [e], scans + 1, depth, e.target, p, open)
  {
    hide Run, Ledger;
    LedgerStep(all, e, e.target, p);
  }

  lemma NoDeviationYet(pre: seq<Event>, es: seq<Event>, target: string, hysteresis: int, p: int, open: bool)
    requires es == [] && target in Run(pre).baselines && (p in Run(pre).baselines[target]) != open
    ensures DeviationOutcome(pre, pre + es, |Of(es, target)|, Depth(hysteresis), target, p, open)
  {
    assert pre + es == pre;
  }

  /** A deviation from the baseline that starts at a scan and lasts `m` scans is alerted exactly
      once if `m` reaches the hysteresis depth, at the scan that reaches it, and never before. */
  lemma {:induction false} DeviationAlertsOnce(pre: seq<Event>, es: seq<Event>, target: string, hysteresis: int,
                                               p: int, open: bool)
    requires Clocked(pre + es) && Tidy(pre + es)
    requires Deviation(es, target, hysteresis, p, open)
    requires target in Run(pre).baselines && (p in Run(pre).baselines[target]) != open
    requires var h := ScansIn(Of(pre, target)); h != [] && (p in h[|h| - 1]) != open
    ensures DeviationOutcome(pre, pre + es, |Of(es, target)|, Depth(hysteresis), target, p, open)
  {
    hide *;
    if es == [] {
      NoDeviationYet(pre, es, target, hysteresis, p, open);
    } else {
      var n := |es| - 1;
      var e, es' := es[n], es[..n];
      var all := pre + es';
      assert pre + es == all + [e] && es == es' + [e];
      ClockedPrefix(all + [e]);
      assert (all + [e])[..|all + [e]| - 1] == all;
      TidyPrefix(all, e);
      DeviationPrefix(es', e, target, hysteresis, p, open);
      DeviationAlertsOnce(pre, es', target, hysteresis, p, open);
      OfStep(es', e, target);
      DeviationNext(pre, es', e, target, hysteresis, p, open);
    }
  }

  lemma DeviationNext(pre: seq<Event>, es: seq<Event>, e: Event, target: string, hysteresis: int, p: int, open: bool)
    requires Clocked(pre + es + [e]) && Tidy(pre + es) && Distinct(e.ports)
    requires Deviation(es, target, hysteresis, p, open)
    requires e.target == target ==> e.Scan? && e.hysteresis == hysteresis && (p in e.ports) == open
    requires var h := ScansIn(Of(pre, target)); h != [] && (p in h[|h| - 1]) != open
    requires DeviationOutcome(pre, pre + es, |Of(es, target)|, Depth(hysteresis), target, p, open)
    ensures DeviationOutcome(pre, pre + es + [e], |Of(es, target)| + (if e.target == target then 1 else 0),
                             Depth(hysteresis), target, p, open)
  {
    hide Run, Ledger, ScansIn, Of, Clocked, Tidy, Deviation;
    if e.target != target {
      OutcomeKept(pre, pre + es, e, |Of(es, target)|, Depth(hysteresis), target, p, open);
    } else {
      DeviationStep(pre, es, e, hysteresis, p, open);
      OutcomeExtended(pre, pre + es, e, |Of(es, target)|, Depth(hysteresis), p, open);
    }
  }
}
