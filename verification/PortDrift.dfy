/** Baseline drift detection for security scans: the comparison, the hysteresis filter and the
    fold into the stored baseline, driven scan by scan, and the per-port debouncer they amount to. */
module PortDrift {
  import opened Sequences
  import opened Tables

  datatype Kind = NewPort | PortGone

  datatype Alert = Alert(target: string, kind: Kind, port: int)

  // ---------------------------------------------------------------- the three drift functions

  /** The elements of `xs` that are not in `ys`, in order, with their repetitions. */
  function Without(xs: seq<int>, ys: seq<int>): (r: seq<int>)
    ensures forall x :: x in r <==> x in xs && x !in ys
  {
    if xs == [] then []
    else
      var n := |xs| - 1;
      var rest := Without(xs[..n], ys);
      assert xs == xs[..n] + [xs[n]];
      if xs[n] in ys then rest else rest + [xs[n]]
  }

  /** Every scan of the window agrees that the port is open (`open`) or closed (`!open`). */
  predicate Agreed(window: seq<seq<int>>, p: int, open: bool) {
    forall i | 0 <= i < |window| :: (p in window[i]) == open
  }

  /** The ports on which the whole window agrees. */
  function Steady(ports: seq<int>, window: seq<seq<int>>, open: bool): (r: seq<int>)
    ensures forall x :: x in r <==> x in ports && Agreed(window, x, open)
  {
    if ports == [] then []
    else
      var n := |ports| - 1;
      var rest := Steady(ports[..n], window, open);
      assert ports == ports[..n] + [ports[n]];
      if Agreed(window, ports[n], open) then rest + [ports[n]] else rest
  }

  /** The candidates that survive the hysteresis filter; `recent` is newest first. */
  function Confirmed(ports: seq<int>, recent: seq<seq<int>>, hysteresis: int, open: bool): seq<int> {
    if hysteresis <= 1 then ports
    else if |recent| < hysteresis then []
    else Steady(ports, recent[..hysteresis], open)
  }

  /** The baseline with the alerted changes folded in. */
  function Drifted(baseline: seq<int>, alertedNew: seq<int>, alertedGone: seq<int>): (r: seq<int>)
    ensures StrictlyAscending(r)
    ensures forall p :: p in r <==> (p in baseline || p in alertedNew) && p !in alertedGone
  {
    var kept := Without(baseline + alertedNew, alertedGone);
    SortElements(kept);
    Dedup(Sort(kept))
  }

  /** The map a loop builds from a list, as the set of its keys. */
  method KeysOf(xs: seq<int>) returns (keys: set<int>)
    ensures forall p :: p in keys <==> p in xs
  {
    keys := {};
    for i := 0 to |xs|
      invariant forall p :: p in keys <==> p in xs[..i]
    {
      keys := keys + {xs[i]};
    }
  }

  lemma NothingWithout(ys: seq<int>)
    ensures Without([], ys) == []
  {
  }

  lemma WithoutStep(xs: seq<int>, i: nat, ys: seq<int>)
    requires i < |xs|
    ensures Without(xs[..i + 1], ys) == if xs[i] in ys then Without(xs[..i], ys) else Without(xs[..i], ys) + [xs[i]]
  {
    assert xs[..i + 1][..i] == xs[..i];
  }

  lemma {:induction false} WithoutCounts(xs: seq<int>, ys: seq<int>)
    ensures forall x :: multiset(Without(xs, ys))[x] == if x in ys then 0 else multiset(xs)[x]
  {
    if xs != [] {
      var n := |xs| - 1;
      WithoutCounts(xs[..n], ys);
      assert xs == xs[..n] + [xs[n]];
    }
  }

  /** The loop that appends what is not in the map. */
  method NotAmong(xs: seq<int>, keys: set<int>, ys: seq<int>) returns (r: seq<int>)
    requires forall p :: p in keys <==> p in ys
    ensures r == Without(xs, ys)
  {
    hide Without;
    r := [];
    assert xs[..0] == [];
    NothingWithout(ys);
    for i := 0 to |xs|
      invariant r == Without(xs[..i], ys)
    {
      WithoutStep(xs, i, ys);
      var p := xs[i];
      if p !in keys {
        r := r + [p];
      }
    }
    assert xs[..|xs|] == xs;
  }

  method CompareBaseline(baseline: seq<int>, current: seq<int>)
    returns (newPorts: seq<int>, gonePorts: seq<int>)
    ensures newPorts == Sort(Without(current, baseline))
    ensures gonePorts == Sort(Without(baseline, current))
    ensures Ascending(newPorts) && Ascending(gonePorts)
    ensures forall x :: multiset(newPorts)[x] == if x in baseline then 0 else multiset(current)[x]
    ensures forall x :: multiset(gonePorts)[x] == if x in current then 0 else multiset(baseline)[x]
  {
    hide Without, Sort;
    WithoutCounts(current, baseline);
    WithoutCounts(baseline, current);
    var baseSet := KeysOf(baseline);
    var currSet := KeysOf(current);
    newPorts := NotAmong(current, baseSet, baseline);
    gonePorts := NotAmong(baseline, currSet, current);
    newPorts, gonePorts := Sort(newPorts), Sort(gonePorts);
  }

  method AllAgree(window: seq<seq<int>>, p: int, open: bool) returns (agree: bool)
    ensures agree == Agreed(window, p, open)
  {
    agree := true;
    for i := 0 to |window|
      invariant agree && Agreed(window[..i], p, open)
    {
      if (p in window[i]) != open {
        agree := false;
        break;
      }
    }
  }

  method FilterByHysteresis(newPorts: seq<int>, gonePorts: seq<int>, recentScans: seq<seq<int>>, hysteresis: int)
    returns (filteredNew: seq<int>, filteredGone: seq<int>)
    ensures filteredNew == Confirmed(newPorts, recentScans, hysteresis, true)
    ensures filteredGone == Confirmed(gonePorts, recentScans, hysteresis, false)
  {
    if hysteresis <= 1 {
      return newPorts, gonePorts;
    }
    if |recentScans| < hysteresis {
      return [], [];
    }
    var window := recentScans[..hysteresis];
    filteredNew, filteredGone := [], [];
    for i := 0 to |newPorts|
      invariant filteredNew == Steady(newPorts[..i], window, true)
    {
      assert newPorts[..i + 1][..i] == newPorts[..i];
      var stable := AllAgree(window, newPorts[i], true);
      if stable {
        filteredNew := filteredNew + [newPorts[i]];
      }
    }
    for i := 0 to |gonePorts|
      invariant filteredGone == Steady(gonePorts[..i], window, false)
    {
      assert gonePorts[..i + 1][..i] == gonePorts[..i];
      var gone := AllAgree(window, gonePorts[i], false);
      if gone {
        filteredGone := filteredGone + [gonePorts[i]];
      }
    }
    assert newPorts[..|newPorts|] == newPorts && gonePorts[..|gonePorts|] == gonePorts;
  }

  /** The keys of a map, ranged over in an unspecified order. */
  method Listed(keys: set<int>) returns (xs: seq<int>)
    ensures Distinct(xs)
    ensures forall p :: p in xs <==> p in keys
  {
    var rest := keys;
    xs := [];
    while rest != {}
      invariant Distinct(xs)
      invariant keys == rest + set p | p in xs
      invariant forall i | 0 <= i < |xs| :: xs[i] !in rest
    {
      assert (forall p :: p !in rest) ==> rest == {};
      var p :| p in rest;
      rest := rest - {p};
      xs := xs + [p];
    }
  }

  method ApplyBaselineDrift(baseline: seq<int>, alertedNew: seq<int>, alertedGone: seq<int>)
    returns (updated: seq<int>)
    ensures updated == Drifted(baseline, alertedNew, alertedGone)
  {
    var ports: set<int> := {};
    for i := 0 to |baseline|
      invariant forall p :: p in ports <==> p in baseline[..i]
    {
      ports := ports + {baseline[i]};
    }
    for i := 0 to |alertedNew|
      invariant forall p :: p in ports <==> p in baseline || p in alertedNew[..i]
    {
      ports := ports + {alertedNew[i]};
    }
    for i := 0 to |alertedGone|
      invariant forall p :: p in ports <==> (p in baseline || p in alertedNew) && p !in alertedGone[..i]
    {
      ports := ports - {alertedGone[i]};
    }
    updated := Listed(ports);
    SortDistinct(updated);
    SortElements(updated);
    updated := Sort(updated);
    AscendingUnique(updated, Drifted(baseline, alertedNew, alertedGone));
  }

  // ---------------------------------------------------------------- one target's scan handling

  datatype State = State(scans: seq<Row<seq<int>>>, baselines: map<string, seq<int>>, alerts: seq<Alert>)

  /** A completed scan handed to the hub, or a port list an operator has accepted as the baseline. */
  datatype Event =
    | Scan(target: string, hysteresis: int, ports: seq<int>, at: int)
    | Accept(target: string, ports: seq<int>)

  const EMPTY := State([], map[], [])

  /** How many of the newest scans, over all targets, an accept looks at. */
  const ACCEPT_DEPTH := 100

  function Ports(rows: seq<Row<seq<int>>>): seq<seq<int>> {
    seq(|rows|, i requires 0 <= i < |rows| => rows[i].value)
  }

  function Alerts(target: string, kind: Kind, ports: seq<int>): seq<Alert> {
    seq(|ports|, i requires 0 <= i < |ports| => Alert(target, kind, ports[i]))
  }

  function Depth(hysteresis: int): nat {
    if hysteresis < 1 then 1 else hysteresis
  }

  function ScanStep(s: State, target: string, hysteresis: int, ports: seq<int>, at: int): State {
    var scans := s.scans + [Row(target, at, ports)];
    if target !in s.baselines then
      State(scans, s.baselines[target := ports], s.alerts)
    else
      var baseline := s.baselines[target];
      var recent := Ports(Recent(scans, target, Depth(hysteresis)));
      var appeared := Confirmed(Sort(Without(ports, baseline)), recent, hysteresis, true);
      var vanished := Confirmed(Sort(Without(baseline, ports)), recent, hysteresis, false);
      State(scans,
            if appeared == [] && vanished == [] then s.baselines
            else s.baselines[target := Drifted(baseline, appeared, vanished)],
            s.alerts + Alerts(target, NewPort, appeared) + Alerts(target, PortGone, vanished))
  }

  function Step(s: State, e: Event): State {
    match e
    case Scan(target, hysteresis, ports, at) => ScanStep(s, target, hysteresis, ports, at)
    case Accept(target, ports) => s.(baselines := s.baselines[target := ports])
  }

  function Run(es: seq<Event>): State {
    if es == [] then EMPTY else Step(Run(es[..|es| - 1]), es[|es| - 1])
  }

  /** The hub's store tables for security scans and the alerts sent from them. */
  class PortWatch {
    var scans: seq<Row<seq<int>>>
    var baselines: map<string, seq<int>>
    var alerts: seq<Alert>

    ghost function View(): State
      reads this
    {
      State(scans, baselines, alerts)
    }

    constructor ()
      ensures View() == EMPTY
    {
      scans, baselines, alerts := [], map[], [];
    }

    method GetRecentSecurityScans(target: string, limit: nat) returns (window: seq<seq<int>>)
      ensures window == Ports(Recent(scans, target, limit))
    {
      var recent := Recent(scans, target, limit);
      window := [];
      for i := 0 to |recent|
        invariant window == Ports(recent[..i])
      {
        window := window + [recent[i].value];
      }
      assert recent[..|recent|] == recent;
    }

    method SendAlerts(target: string, kind: Kind, ports: seq<int>)
      modifies this`alerts
      ensures alerts == old(alerts) + Alerts(target, kind, ports)
    {
      for i := 0 to |ports|
        invariant alerts == old(alerts) + Alerts(target, kind, ports[..i])
      {
        alerts := alerts + [Alert(target, kind, ports[i])];
        assert Alerts(target, kind, ports[..i + 1]) ==
               Alerts(target, kind, ports[..i]) + [Alert(target, kind, ports[i])];
      }
      assert ports[..|ports|] == ports;
    }

    /** The hysteresis block of the scan handler: the drift that is reported. */
    method Suppress(target: string, hysteresis: nat, newPorts: seq<int>, gonePorts: seq<int>)
      returns (alertedNew: seq<int>, alertedGone: seq<int>)
      ensures var recent := Ports(Recent(scans, target, hysteresis));
              && alertedNew == Confirmed(newPorts, recent, hysteresis, true)
              && alertedGone == Confirmed(gonePorts, recent, hysteresis, false)
    {
      alertedNew, alertedGone := newPorts, gonePorts;
      if hysteresis > 1 && (|newPorts| > 0 || |gonePorts| > 0) {
        var window := GetRecentSecurityScans(target, hysteresis);
        alertedNew, alertedGone := FilterByHysteresis(newPorts, gonePorts, window, hysteresis);
      }
    }

    method ProcessScanResult(target: string, alertHysteresis: int, openPorts: seq<int>, now: int)
      returns (newPorts: seq<int>, gonePorts: seq<int>)
      modifies this
      ensures View() == Step(old(View()), Scan(target, alertHysteresis, openPorts, now))
      ensures scans == old(scans) + [Row(target, now, openPorts)]
      ensures target !in old(baselines) ==>
                && newPorts == gonePorts == [] && alerts == old(alerts)
                && baselines == old(baselines)[target := openPorts]
      ensures target in old(baselines) ==>
                && newPorts == Sort(Without(openPorts, old(baselines[target])))
                && gonePorts == Sort(Without(old(baselines[target]), openPorts))
    {
      hide Recent, Confirmed, Without, Drifted, Alerts, Ports, Sort;
      scans := scans + [Row(target, now, openPorts)];
      newPorts, gonePorts := [], [];
      if target !in baselines {
        baselines := baselines[target := openPorts];
        return;
      }
      var baseline := baselines[target];
      newPorts, gonePorts := CompareBaseline(baseline, openPorts);
      var hysteresis := if alertHysteresis < 1 then 1 else alertHysteresis;
      ClippedAlike(alertHysteresis);
      var alertedNew, alertedGone := Suppress(target, hysteresis, newPorts, gonePorts);
      SendAlerts(target, NewPort, alertedNew);
      SendAlerts(target, PortGone, alertedGone);
      if |alertedNew| > 0 || |alertedGone| > 0 {
        var updated := ApplyBaselineDrift(baseline, alertedNew, alertedGone);
        baselines := baselines[target := updated];
      }
    }

    /** A hysteresis below one acts like one. */
    lemma ClippedAlike(hysteresis: int)
      ensures forall ports, recent, open ::
                Confirmed(ports, recent, Depth(hysteresis), open) == Confirmed(ports, recent, hysteresis, open)
    {
    }

    /** An operator accepts what the target's newest scan saw, if one is among the newest of all scans. */
    method AcceptBaseline(target: string) returns (found: bool)
      modifies this`baselines
      ensures found <==> exists r :: r in AllRecent(scans, ACCEPT_DEPTH) && r.key == target
      ensures (exists r :: r in scans && r.key == target && Newer(scans, r.at - 1) <= 100) ==> found
      ensures found ==> exists r :: r in scans && r.key == target && Newer(scans, r.at) < 100
      ensures found ==> exists r ::
                NewestOf(AllRecent(scans, ACCEPT_DEPTH), target, r)
                && View() == Step(old(View()), Accept(target, r.value))
      ensures found && Chronological(scans) ==>
                var seen := Values(scans, target);
                seen != [] && View() == Step(old(View()), Accept(target, seen[|seen| - 1]))
      ensures !found ==> View() == old(View())
    {
      hide AllRecent, Values, Chronological, Newer, Descending;
      var rows := AllRecent(scans, ACCEPT_DEPTH);
      AllRecentAre(scans, 100);
      var latest: nat := |rows|;
      for i := 0 to |rows|
        invariant latest == |rows| || latest < i
        invariant latest == |rows| ==> forall j | 0 <= j < i :: rows[j].key != target
        invariant latest < |rows| ==>
                    rows[latest].key == target
                    && forall j | 0 <= j < i && rows[j].key == target :: rows[j].at <= rows[latest].at
      {
        if rows[i].key == target && (latest == |rows| || rows[i].at > rows[latest].at) {
          latest := i;
        }
      }
      found := latest < |rows|;
      if found {
        baselines := baselines[target := rows[latest].value];
        assert NewestOf(rows, target, rows[latest]);
        if Chronological(scans) { NewestIsLast(scans, target, ACCEPT_DEPTH, rows[latest]); }
      }
    }
  }
}
