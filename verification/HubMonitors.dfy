/** What every monitor's state says about the events of a run: results under the threshold in force when they came
    in, reloads that change it, restarts that forget. */
module HubMonitors {
  import opened Monitors
  import opened Incidents
  import opened Options
  import Tables
  import opened Staleness
  import opened Alerts
  import opened HubPipeline
  import opened HubRuns

  /** A result of the monitor, with the threshold in force at the time. */
  datatype Seen = Seen(ok: bool, error: string, threshold: int)

  /** Since a monitor is configured without interruption: its threshold now, and its results. */
  datatype Life = Absent | Present(threshold: int, seen: seq<Seen>)

  /** The threshold a configuration gives a name: that of its last entry, or the default if that is zero. */
  function InForce(monitors: seq<MonitorConfig>, default: int, m: string): Option<int> {
    if monitors == [] then None
    else
      var c := monitors[|monitors| - 1];
      if c.name == m then Some(if c.failureThreshold != 0 then c.failureThreshold else default)
      else InForce(monitors[..|monitors| - 1], default, m)
  }

  /** What one event means for the monitor: a result counts while it is configured, a reload keeps what it has
      seen under the new threshold, a restart forgets it. */
  function Lived(l: Life, e: Event, m: string): Life {
    match e
    case Result(r, _, _, _) =>
      if r.monitor == m && l.Present? then
        Present(l.threshold, l.seen + [Seen(r.status == "up", r.error, l.threshold)])
      else l
    case Reload(config, _) =>
      (match InForce(config.monitors, config.defaultFailureThreshold, m)
       case None => Absent
       case Some(t) => Present(t, if l.Present? then l.seen else []))
    case Restart(config, _) =>
      (match InForce(config.monitors, config.defaultFailureThreshold, m)
       case None => Absent
       case Some(t) => Present(t, []))
    case _ => l
  }

  function LifeOf(es: seq<Event>, m: string): Life {
    if es == [] then Absent else Lived(LifeOf(es[..|es| - 1], m), es[|es| - 1], m)
  }

  /** The length of the run of failures at the end. */
  function Failing(seen: seq<Seen>): nat {
    if seen == [] || seen[|seen| - 1].ok then 0 else 1 + Failing(seen[..|seen| - 1])
  }

  function Ups(seen: seq<Seen>): nat {
    if seen == [] then 0 else Ups(seen[..|seen| - 1]) + if seen[|seen| - 1].ok then 1 else 0
  }

  /** Result `i` is in the failing run at the end, and completes the threshold in force when it came in. */
  ghost predicate Trips(seen: seq<Seen>, i: nat) {
    i < |seen| && |seen| - Failing(seen) <= i
    && i - (|seen| - Failing(seen)) + 1 >= (if seen[i].threshold < 1 then 1 else seen[i].threshold)
  }

  /** The state tells the life: the counter, the status, the error of the last result if it failed, the totals. */
  ghost predicate Tells(mon: Mon, l: Life)
    requires l.Present?
  {
    && mon.threshold == l.threshold && mon.failures == Failing(l.seen)
    && (mon.status.StatusDown? <==> exists i: nat :: Trips(l.seen, i))
    && mon.lastError == (if l.seen == [] || l.seen[|l.seen| - 1].ok then "" else l.seen[|l.seen| - 1].error)
    && mon.totalChecks == |l.seen| && mon.totalUp == Ups(l.seen)
  }

  ghost predicate Told(mons: HubPipeline.Mons, m: string, l: Life) {
    (m in mons <==> l.Present?) && (l.Present? ==> Tells(mons[m], l))
  }

  // ---------------------------------------------------------------- one result

  lemma {:induction false} FailingBound(seen: seq<Seen>)
    ensures Failing(seen) <= |seen|
  {
    if seen != [] { FailingBound(seen[..|seen| - 1]); }
  }

  lemma FailingStep(seen: seq<Seen>, x: Seen)
    ensures Failing(seen + [x]) == if x.ok then 0 else Failing(seen) + 1
    ensures Ups(seen + [x]) == Ups(seen) + if x.ok then 1 else 0
  {
    assert (seen + [x])[..|seen|] == seen;
  }

  lemma TripsStep(seen: seq<Seen>, x: Seen)
    ensures (exists i: nat :: Trips(seen + [x], i)) <==>
            !x.ok && ((exists i: nat :: Trips(seen, i))
                      || Failing(seen) + 1 >= (if x.threshold < 1 then 1 else x.threshold))
  {
    hide Failing;
    var all := seen + [x];
    FailingStep(seen, x);
    FailingBound(seen);
    forall i: nat | i < |seen| && !x.ok ensures Trips(all, i) <==> Trips(seen, i) {
      assert all[i] == seen[i];
    }
    if !x.ok {
      assert all[|seen|] == x;
      if Failing(seen) + 1 >= (if x.threshold < 1 then 1 else x.threshold) { assert Trips(all, |seen|); }
      if i: nat :| Trips(seen, i) { assert Trips(all, i); }
      forall i: nat | Trips(all, i) && i != |seen| ensures Trips(seen, i) { }
    }
  }

  lemma ResultTold(mon: Mon, l: Life, r: CheckResult)
    requires l.Present? && Tells(mon, l)
    ensures Tells(Recorded(mon, r), Lived(l, Result(r, 0, 0, 0), r.monitor))
  {
    hide Failing, Ups, Trips;
    var x := Seen(r.status == "up", r.error, l.threshold);
    FailingStep(l.seen, x);
    TripsStep(l.seen, x);
  }

  // ---------------------------------------------------------------- configurations

  lemma {:induction false} RebuiltInForce(earlier: HubPipeline.Mons, monitors: seq<MonitorConfig>, default: int,
                                           m: string)
    ensures var mons, t := Rebuilt(earlier, monitors, default), InForce(monitors, default, m);
            && (m in mons <==> t.Some?)
            && (t.Some? ==> mons[m] == if m in earlier then earlier[m].(threshold := t.value)
                                       else Mon(StatusUp, t.value, 0, "", 0, 0))
  {
    if monitors != [] {
      RebuiltInForce(earlier, monitors[..|monitors| - 1], default, m);
    }
  }

  lemma ConfigTold(earlier: HubPipeline.Mons, config: Config, m: string, l: Life)
    requires Told(earlier, m, l)
    ensures Told(Rebuilt(earlier, config.monitors, config.defaultFailureThreshold), m, Lived(l, Reload(config, 0), m))
  {
    hide Rebuilt, Failing, Ups, InForce, Trips;
    RebuiltInForce(earlier, config.monitors, config.defaultFailureThreshold, m);
    NothingTrips();
    NoneFailing();
  }

  lemma NothingTrips()
    ensures forall i: nat :: !Trips([], i)
  {
  }

  lemma NoneFailing()
    ensures Failing([]) == 0 && Ups([]) == 0
  {
  }

  lemma StepTold(h: Hub, e: Event, m: string, l: Life)
    requires Told(h.mons, m, l)
    ensures Told(Advance(h, e).mons, m, Lived(l, e, m))
  {
    hide Tells, Rebuilt, InForce, Recorded, Announce, Sweep, Upserted, StaleResolved;
    match e {
      case Result(r, _, _, _) => if r.monitor == m && m in h.mons { ResultTold(h.mons[m], l, r); }
      case Reload(config, _) => ConfigTold(h.mons, config, m, l);
      case Restart(config, _) => ConfigTold(map[], config, m, Absent);
      case _ =>
    }
  }

  // ---------------------------------------------------------------- whole runs

  lemma {:induction false} AfterSnoc(h: Hub, es: seq<Event>, e: Event)
    ensures After(h, es + [e]) == Advance(After(h, es), e)
    decreases |es|
  {
    hide Advance;
    if es == [] {
      AfterStep(h, e, []);
      assert [] + [e] == [e] + [];
    } else {
      AfterSnoc(Advance(h, es[0]), es[1..], e);
      assert (es + [e])[1..] == es[1..] + [e];
    }
  }

  /** Over any run, reloads and restarts included: a monitor is configured iff the last configuration names it; its
      counter is the failing run at the end of its life; it is DOWN iff some failure of that run completed the
      threshold in force when it came in; and its error is that of the last result if it failed. */
  lemma {:induction false} MonitorsTell(reminderInterval: int, es: seq<Event>, m: string)
    ensures Told(After(Blank(reminderInterval), es).mons, m, LifeOf(es, m))
  {
    hide Advance, After, Told;
    if es == [] {
      NobodyTold(reminderInterval, m);
    } else {
      var n := |es| - 1;
      assert es == es[..n] + [es[n]];
      MonitorsTell(reminderInterval, es[..n], m);
      AfterSnoc(Blank(reminderInterval), es[..n], es[n]);
      StepTold(After(Blank(reminderInterval), es[..n]), es[n], m, LifeOf(es[..n], m));
    }
  }

  lemma NobodyTold(reminderInterval: int, m: string)
    ensures Told(After(Blank(reminderInterval), []).mons, m, LifeOf([], m))
  {
  }

  /** The last `n` results exist and all failed. */
  ghost predicate LastFailing(seen: seq<Seen>, n: nat) {
    n <= |seen| && forall i | |seen| - n <= i < |seen| :: !seen[i].ok
  }

  lemma {:induction false} LastFailingIff(seen: seq<Seen>, n: nat)
    ensures LastFailing(seen, n) <==> n <= Failing(seen)
  {
    if seen != [] && n > 0 {
      LastFailingIff(seen[..|seen| - 1], n - 1);
      assert seen == seen[..|seen| - 1] + [seen[|seen| - 1]];
    }
  }

  /** As long as the threshold has not changed, the monitor is DOWN iff the last `threshold` results failed. */
  lemma DownUnderOneThreshold(reminderInterval: int, es: seq<Event>, m: string, t: nat)
    requires LifeOf(es, m).Present? && t >= 1
    requires forall i | 0 <= i < |LifeOf(es, m).seen| :: LifeOf(es, m).seen[i].threshold == t
    ensures var h := After(Blank(reminderInterval), es);
            && m in h.mons
            && (h.mons[m].status.StatusDown? <==> LastFailing(LifeOf(es, m).seen, t))
  {
    hide After, LifeOf, Failing;
    var seen := LifeOf(es, m).seen;
    MonitorsTell(reminderInterval, es, m);
    LastFailingIff(seen, t);
    FailingBound(seen);
    if t <= Failing(seen) { assert Trips(seen, |seen| - Failing(seen) + t - 1); }
  }

  /** A monitor whose threshold was raised after it went DOWN stays DOWN, and one whose threshold was lowered below
      its counter stays UP until it fails again: a reload changes no status. */
  lemma ReloadKeepsStatus(h: Hub, config: Config, now: int, m: string)
    requires m in h.mons && m in Advance(h, Reload(config, now)).mons
    ensures Advance(h, Reload(config, now)).mons[m].status == h.mons[m].status
    ensures Advance(h, Reload(config, now)).mons[m].failures == h.mons[m].failures
  {
    hide Rebuilt, InForce;
    RebuiltInForce(h.mons, config.monitors, config.defaultFailureThreshold, m);
  }

  // ---------------------------------------------------------------- what a result leaves behind

  /** A failure that completes the threshold opens an incident with its error, from the second of its arrival on. */
  lemma FailureOpens(h: Hub, r: CheckResult, now: int, seen: int, at: int)
    requires r.monitor in h.mons && h.mons[r.monitor].status == StatusUp && r.status != "up"
    requires h.mons[r.monitor].failures + 1 >= h.mons[r.monitor].threshold
    ensures var before, after := h.core.incidents, Advance(h, Result(r, now, seen, at)).core.incidents;
            after == before + [Incident(|before| + 1, r.monitor, Unix(now), None, r.error)]
  {
    hide Unix;
  }

  /** The success that ends it resolves the open incident at the second of its arrival, and nothing else. */
  lemma SuccessResolves(h: Hub, clock: int, r: CheckResult, now: int, seen: int, at: int, k: nat)
    requires r.monitor in h.mons && h.mons[r.monitor].status == StatusDown && r.status == "up"
    requires Disjoint(h.core.incidents, clock)
    requires k < |h.core.incidents| && h.core.incidents[k].monitor == r.monitor
    requires h.core.incidents[k].resolvedAt == None
    ensures var before, after := h.core.incidents, Advance(h, Result(r, now, seen, at)).core.incidents;
            after == before[k := before[k].(resolvedAt := Some(Unix(now)))]
  {
    hide Unix, Alerts.Step;
    assert OpenIndex(h.core.incidents, r.monitor) == k;
  }

  /** One more failure does not complete the threshold. */
  predicate Below(mon: Mon) { mon.status == StatusUp && mon.failures + 1 < mon.threshold }

  /** Every result is stored under the second of its arrival; of a known monitor it is the last one, checked in the
      second the state machine was done. Any other result touches no incident. */
  lemma ResultStored(h: Hub, r: CheckResult, now: int, seen: int, at: int)
    ensures var h' := Advance(h, Result(r, now, seen, at));
            && h'.checks == h.checks + [Tables.Row(r.monitor, Unix(now), r.status)] && h'.beats == h.beats
            && (forall n :: n in h'.lastResults <==> n in h.lastResults || (n == r.monitor && n in h.mons))
            && (forall n | n in h'.lastResults ::
                  h'.lastResults[n] == if n == r.monitor && n in h.mons then r else h.lastResults[n])
            && (r.monitor in h.mons ==> h'.lastCheckAt == h.lastCheckAt[r.monitor := Unix(seen)])
            && (r.monitor !in h.mons ==> h'.lastCheckAt == h.lastCheckAt && h'.core == h.core && h'.mons == h.mons)
            && (r.monitor in h.mons && (h.mons[r.monitor].status == StatusUp <==> r.status == "up") ==>
                  h'.core == h.core)
            && (r.monitor in h.mons && Below(h.mons[r.monitor]) ==> h'.core == h.core)
            && forall n | n in h.mons && n != r.monitor :: h'.mons[n] == h.mons[n]
  {
    hide Unix, Created, Resolved, OpenIndex;
  }

  // ---------------------------------------------------------------- mutes and heartbeats of a run

  /** Event `i` sets the mute of the name, and none after it does. */
  ghost predicate LastMute(es: seq<Event>, name: string, i: nat) {
    && i < |es| && es[i].SetMute? && es[i].name == name
    && forall j | i < j < |es| && es[j].SetMute? :: es[j].name != name
  }

  /** Over any run a name is muted iff it was muted last; restarts and reloads change no mute. */
  lemma {:induction false} MutesTell(reminderInterval: int, es: seq<Event>, name: string)
    ensures name in After(Blank(reminderInterval), es).core.alerter.muted <==>
            exists i: nat :: LastMute(es, name, i) && es[i].muted
  {
    hide After;
    if es == [] {
      NothingMuted(reminderInterval);
    } else {
      var n := |es| - 1;
      assert es == es[..n] + [es[n]];
      MutesTell(reminderInterval, es[..n], name);
      AfterSnoc(Blank(reminderInterval), es[..n], es[n]);
      MuteStep(After(Blank(reminderInterval), es[..n]), es[n], name);
      LastMuteStep(es[..n], es[n], name);
    }
  }

  lemma NothingMuted(reminderInterval: int)
    ensures After(Blank(reminderInterval), []).core.alerter.muted == {}
  {
  }

  lemma LastMuteStep(es: seq<Event>, e: Event, name: string)
    ensures (exists i: nat :: LastMute(es + [e], name, i) && (es + [e])[i].muted) <==>
            if e.SetMute? && e.name == name then e.muted else exists i: nat :: LastMute(es, name, i) && es[i].muted
  {
    var all, n := es + [e], |es|;
    assert all[n] == e;
    if e.SetMute? && e.name == name {
      assert LastMute(all, name, n);
      forall i: nat | LastMute(all, name, i) ensures i == n { }
    } else {
      forall i: nat ensures LastMute(all, name, i) <==> LastMute(es, name, i) {
        if i < n { assert all[i] == es[i] && forall j | i < j < n :: all[j] == es[j]; }
      }
      assert forall i: nat | LastMute(es, name, i) :: all[i] == es[i];
    }
  }

  lemma MuteStep(h: Hub, e: Event, name: string)
    ensures name in Advance(h, e).core.alerter.muted <==>
            if e.SetMute? && e.name == name then e.muted else name in h.core.alerter.muted
  {
    hide Rebuilt, StaleResolved, Upserted, Recorded, Created, Resolved, OpenIndex, Unix, Sweep;
    match e {
      case Check(now, at) => SweepKeepsMutes(h.core, h.beats, now, at);
      case _ =>
    }
  }

  lemma SweepKeepsMutes(c: Core, beats: seq<Heartbeat>, now: int, at: int)
    ensures Sweep(c, beats, Staleness.FIVE_MINUTES, now, at).alerter.muted == c.alerter.muted
  {
    hide OpenStale, CloseFresh, StaleAmong;
    var stale := StaleAmong(beats, now - Staleness.FIVE_MINUTES);
    OpenKeepsMutes(c, stale, now, at);
    CloseKeepsMutes(OpenStale(c, stale, now, at), beats, now - Staleness.FIVE_MINUTES, now, at);
  }

  lemma {:induction false} OpenKeepsMutes(c: Core, stale: seq<Heartbeat>, now: int, at: int)
    ensures OpenStale(c, stale, now, at).alerter.muted == c.alerter.muted
  {
    hide Created, IsOpen, Unix;
    if stale != [] { OpenKeepsMutes(c, stale[..|stale| - 1], now, at); }
  }

  lemma {:induction false} CloseKeepsMutes(c: Core, beats: seq<Heartbeat>, threshold: int, now: int, at: int)
    ensures CloseFresh(c, beats, threshold, now, at).alerter.muted == c.alerter.muted
  {
    hide Resolved, IsOpen, Unix, OpenIndex;
    if beats != [] { CloseKeepsMutes(c, beats[..|beats| - 1], threshold, now, at); }
  }

  /** Event `i` is the last heartbeat of the host. */
  ghost predicate LastBeat(es: seq<Event>, host: string, i: nat) {
    && i < |es| && es[i].Beat? && es[i].host == host
    && forall j | i < j < |es| && es[j].Beat? :: es[j].host != host
  }

  /** Over any run the heartbeat table holds, for each host that ever reported, the second of its last report. */
  lemma {:induction false} BeatsTell(reminderInterval: int, es: seq<Event>, b: Heartbeat)
    ensures HostsOrdered(After(Blank(reminderInterval), es).beats)
    ensures b in After(Blank(reminderInterval), es).beats <==>
            exists i: nat :: LastBeat(es, b.host, i) && b.lastSeen == Unix(es[i].ts)
  {
    hide After, Advance, Unix, HostsOrdered;
    if es == [] {
      NoBeats(reminderInterval);
    } else {
      var n := |es| - 1;
      assert es == es[..n] + [es[n]];
      BeatsTell(reminderInterval, es[..n], b);
      AfterSnoc(Blank(reminderInterval), es[..n], es[n]);
      BeatStep(After(Blank(reminderInterval), es[..n]), es[n], b);
      LastBeatStep(es[..n], es[n], b);
    }
  }

  lemma NoBeats(reminderInterval: int)
    ensures After(Blank(reminderInterval), []).beats == [] && HostsOrdered([])
  {
  }

  lemma BeatStep(h: Hub, e: Event, b: Heartbeat)
    requires HostsOrdered(h.beats)
    ensures HostsOrdered(Advance(h, e).beats)
    ensures b in Advance(h, e).beats <==>
            if e.Beat? && e.host == b.host then b.lastSeen == Unix(e.ts) else b in h.beats
  {
    hide HostsOrdered, Upserted, Rebuilt, StaleResolved, Recorded, Announce, Sweep, Unix;
    if e.Beat? { UpsertKeepsOrdered(h.beats, e.host, Unix(e.ts)); }
  }

  lemma LastBeatStep(es: seq<Event>, e: Event, b: Heartbeat)
    ensures (exists i: nat :: LastBeat(es + [e], b.host, i) && b.lastSeen == Unix((es + [e])[i].ts)) <==>
            if e.Beat? && e.host == b.host then b.lastSeen == Unix(e.ts)
            else exists i: nat :: LastBeat(es, b.host, i) && b.lastSeen == Unix(es[i].ts)
  {
    hide Unix;
    var all, n := es + [e], |es|;
    assert all[n] == e;
    if e.Beat? && e.host == b.host {
      assert LastBeat(all, b.host, n);
      forall i: nat | LastBeat(all, b.host, i) ensures i == n { }
    } else {
      forall i: nat ensures LastBeat(all, b.host, i) <==> LastBeat(es, b.host, i) {
        if i < n { assert all[i] == es[i] && forall j | i < j < n :: all[j] == es[j]; }
      }
      assert forall i: nat | LastBeat(es, b.host, i) :: all[i] == es[i];
    }
  }
}
