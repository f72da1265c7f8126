/** Whole runs of the hub: incidents mirror monitor status, and messages mirror incidents. */
module HubRuns {
  import opened Monitors
  import opened Incidents
  import opened Alerts
  import opened Staleness
  import opened HubPipeline

  function Names(monitors: seq<MonitorConfig>): set<string> {
    set i | 0 <= i < |monitors| :: monitors[i].name
  }

  lemma {:induction false} RebuiltNames(earlier: HubPipeline.Mons, monitors: seq<MonitorConfig>, default: int)
    ensures Rebuilt(earlier, monitors, default).Keys == Names(monitors)
    ensures forall n | n in Names(monitors) ::
              Rebuilt(earlier, monitors, default)[n].status == if n in earlier then earlier[n].status else StatusUp
  {
    if monitors != [] {
      var k := |monitors| - 1;
      RebuiltNames(earlier, monitors[..k], default);
      assert Names(monitors) == Names(monitors[..k]) + {monitors[k].name} by {
        assert monitors == monitors[..k] + [monitors[k]];
        assert forall i | 0 <= i < k :: monitors[i] == monitors[..k][i];
      }
    }
  }

  // ---------------------------------------------------------------- the invariant

  /** A configured monitor has an open incident iff it is DOWN; any other name that is not an
      agent's has none; and the table consists of disjoint intervals per name. */
  ghost predicate Inv(h: Hub, clock: int) {
    && Disjoint(h.core.incidents, clock)
    && HostsOrdered(h.beats)
    && (forall m | m in h.mons :: !IsAgentName(m) && (h.mons[m].status.StatusDown? <==> IsOpen(h.core.incidents, m)))
    && (forall m | m !in h.mons && !IsAgentName(m) :: !IsOpen(h.core.incidents, m))
  }

  /** The configuration gives no monitor a name of the form used for agents. */
  ghost predicate CleanNames(config: Config) {
    forall n | n in Names(config.monitors) :: !IsAgentName(n)
  }

  ghost predicate KeepsDown(mons: HubPipeline.Mons, config: Config) {
    forall n | n in mons && mons[n].status.StatusDown? :: n in Names(config.monitors)
  }

  ghost predicate Allowed(h: Hub, e: Event) {
    match e
    case Reload(config, _) => CleanNames(config) && KeepsDown(h.mons, config)
    case Restart(config, _) => CleanNames(config)
    case _ => true
  }

  lemma ResultKeepsInv(h: Hub, clock: int, r: CheckResult, now: int, seen: int, at: int)
    requires Inv(h, clock) && clock <= Unix(now)
    ensures Inv(ResultStep(h, r, now, seen, at), Unix(now))
    ensures Announced(h.core) ==> Announced(ResultStep(h, r, now, seen, at).core)
  {
    hide IsOpen, Disjoint, Announced, Recorded, Opened, ClosedUp;
    DisjointLater(h.core.incidents, clock, Unix(now));
    if r.monitor in h.mons {
      match TransitionOf(h.mons[r.monitor].status, Recorded(h.mons[r.monitor], r).status) {
        case NoTransition =>
        case ToDown => OpenedKeeps(h.core, clock, r.monitor, r.error, now, at);
        case ToUp => ClosedKeeps(h.core, clock, r.monitor, now, at);
      }
    }
  }

  /** A reload keeps the invariant exactly when every DOWN monitor is in the new configuration. */
  lemma ReloadKeepsInvIff(h: Hub, clock: int, config: Config, now: int)
    requires Inv(h, clock) && CleanNames(config)
    ensures Inv(Advance(h, Reload(config, now)), clock) <==> KeepsDown(h.mons, config)
  {
    hide IsOpen, Disjoint;
    RebuiltNames(h.mons, config.monitors, config.defaultFailureThreshold);
    var h' := Advance(h, Reload(config, now));
    if !KeepsDown(h.mons, config) {
      var n :| n in h.mons && h.mons[n].status.StatusDown? && n !in Names(config.monitors);
      assert n !in h'.mons && IsOpen(h'.core.incidents, n);
    }
  }

  lemma CheckKeepsInv(h: Hub, clock: int, now: int, at: int)
    requires Inv(h, clock) && clock <= Unix(now)
    ensures Inv(Advance(h, Check(now, at)), Unix(now))
    ensures Announced(h.core) ==> Announced(Advance(h, Check(now, at)).core)
  {
    hide IsOpen, Disjoint, Announced, Sweep;
    SweepKeeps(h.core, clock, h.beats, FIVE_MINUTES, now, at);
  }

  lemma BeatKeepsInv(h: Hub, clock: int, host: string, ts: int, now: int)
    requires Inv(h, clock) && clock <= Unix(now)
    ensures Inv(Advance(h, Beat(host, ts, now)), Unix(now))
  {
    hide IsOpen, Disjoint;
    DisjointLater(h.core.incidents, clock, Unix(now));
    UpsertKeepsOrdered(h.beats, host, Unix(ts));
  }

  lemma StaleResolvedKeeps(table: seq<Incident>, clock: int, mons: HubPipeline.Mons, at: int)
    requires Disjoint(table, clock) && clock <= at
    ensures Disjoint(StaleResolved(table, mons, at), at)
  {
    var t := StaleResolved(table, mons, at);
    forall i, j | 0 <= i < j < |t| && t[i].monitor == t[j].monitor
      ensures t[i].resolvedAt.Some? && t[i].resolvedAt.value <= t[j].startedAt
    {
      assert table[i].resolvedAt.Some? && t[i] == table[i];
    }
  }

  lemma AllResolved(table: seq<Incident>, mons: HubPipeline.Mons, at: int)
    requires forall n | n in mons :: mons[n].status.StatusUp?
    ensures forall m :: !IsOpen(StaleResolved(table, mons, at), m)
  {
    var t := StaleResolved(table, mons, at);
    assert forall i | 0 <= i < |t| :: t[i].resolvedAt.Some?;
  }

  /** A restart resolves whatever was open, so the invariant holds from there on. */
  lemma RestartKeepsInv(h: Hub, clock: int, config: Config, now: int)
    requires Disjoint(h.core.incidents, clock) && HostsOrdered(h.beats) && clock <= Unix(now)
    requires CleanNames(config)
    ensures Inv(Advance(h, Restart(config, now)), Unix(now))
  {
    hide IsOpen, Disjoint, StaleResolved;
    var mons := Rebuilt(map[], config.monitors, config.defaultFailureThreshold);
    RebuiltNames(map[], config.monitors, config.defaultFailureThreshold);
    StaleResolvedKeeps(h.core.incidents, clock, mons, Unix(now));
    AllResolved(h.core.incidents, mons, Unix(now));
  }

  lemma InvLater(h: Hub, clock: int, later: int)
    requires Inv(h, clock) && clock <= later
    ensures Inv(h, later)
  {
    DisjointLater(h.core.incidents, clock, later);
  }

  lemma StepKeepsInv(h: Hub, clock: int, e: Event)
    requires Inv(h, clock) && Allowed(h, e) && clock <= Unix(e.now)
    ensures Inv(Advance(h, e), Unix(e.now))
  {
    hide Inv, Rebuilt, ResultStep, Disjoint, Sweep, RestartStep;
    InvLater(h, clock, Unix(e.now));
    match e {
      case Result(r, now, seen, at) => ResultKeepsInv(h, clock, r, now, seen, at);
      case Reload(config, now) => ReloadKeepsInvIff(h, Unix(now), config, now);
      case Check(now, at) => CheckKeepsInv(h, clock, now, at);
      case Beat(host, ts, now) => BeatKeepsInv(h, clock, host, ts, now);
      case SetMute(name, muted, now) => MuteKeepsInv(h, Unix(now), name, muted, now);
      case Restart(config, now) => DisjointOf(h, clock); RestartKeepsInv(h, clock, config, now);
    }
  }

  lemma DisjointOf(h: Hub, clock: int)
    requires Inv(h, clock)
    ensures Disjoint(h.core.incidents, clock) && HostsOrdered(h.beats)
  {
  }

  lemma MuteKeepsInv(h: Hub, clock: int, name: string, muted: bool, now: int)
    requires Inv(h, clock)
    ensures Inv(Advance(h, SetMute(name, muted, now)), clock)
  {
    hide IsOpen, Disjoint;
  }

  // ---------------------------------------------------------------- whole runs

  /** Events come in clock order, names stay clean, and reloads keep every DOWN monitor. */
  ghost predicate Feasible(h: Hub, clock: int, es: seq<Event>)
    decreases |es|
  {
    es == [] || (clock <= Unix(es[0].now) && Allowed(h, es[0]) && Feasible(Advance(h, es[0]), Unix(es[0].now), es[1..]))
  }

  function After(h: Hub, es: seq<Event>): Hub
    decreases |es|
  {
    if es == [] then h else After(Advance(h, es[0]), es[1..])
  }

  function ClockAfter(clock: int, es: seq<Event>): int {
    if es == [] then clock else Unix(es[|es| - 1].now)
  }

  lemma {:induction false} RunKeepsInv(h: Hub, clock: int, es: seq<Event>)
    requires Inv(h, clock) && Feasible(h, clock, es)
    ensures Inv(After(h, es), ClockAfter(clock, es))
    decreases |es|
  {
    hide Inv, Advance, Allowed;
    if es != [] {
      StepKeepsInv(h, clock, es[0]);
      RunKeepsInv(Advance(h, es[0]), Unix(es[0].now), es[1..]);
      assert es[1..] != [] ==> es[1..][|es[1..]| - 1] == es[|es| - 1];
    }
  }

  /** An installation before its first start. */
  function Blank(reminderInterval: int): Hub {
    Hub(map[], Core([], New(reminderInterval)), [], [], map[], map[])
  }

  /** Incident invariant over runs. From an empty installation through any starts, results,
      staleness passes, heartbeats, mutes and reloads that keep every DOWN monitor: a monitor is
      DOWN iff it has exactly one open incident and UP iff it has none, no other non-agent name has
      one, no name at all has two, and each name's incidents are disjoint intervals in order. */
  lemma IncidentsMirrorStatus(reminderInterval: int, clock: int, es: seq<Event>)
    requires Feasible(Blank(reminderInterval), clock, es)
    ensures var h := After(Blank(reminderInterval), es); var t := h.core.incidents;
            && (forall m | m in h.mons :: |OpenSet(t, m)| == if h.mons[m].status.StatusDown? then 1 else 0)
            && (forall m | m !in h.mons && !IsAgentName(m) :: OpenSet(t, m) == {})
            && (forall m :: |OpenSet(t, m)| <= 1)
            && (forall i | 0 <= i < |t| && t[i].resolvedAt.Some? :: t[i].startedAt <= t[i].resolvedAt.value)
            && (forall i, j | 0 <= i < j < |t| && t[i].monitor == t[j].monitor ::
                  t[i].resolvedAt.Some? && t[i].resolvedAt.value <= t[j].startedAt)
  {
    hide After, Feasible, Advance;
    BlankInv(reminderInterval, clock);
    RunKeepsInv(Blank(reminderInterval), clock, es);
    var h := After(Blank(reminderInterval), es);
    MirrorsStatus(h, ClockAfter(clock, es));
  }

  lemma BlankInv(reminderInterval: int, clock: int)
    ensures Inv(Blank(reminderInterval), clock) && Announced(Blank(reminderInterval).core)
  {
  }

  lemma MirrorsStatus(h: Hub, clock: int)
    requires Inv(h, clock)
    ensures var t := h.core.incidents;
            && (forall m | m in h.mons :: |OpenSet(t, m)| == if h.mons[m].status.StatusDown? then 1 else 0)
            && (forall m | m !in h.mons && !IsAgentName(m) :: OpenSet(t, m) == {})
            && (forall m :: |OpenSet(t, m)| <= 1)
  {
    forall m ensures |OpenSet(h.core.incidents, m)| == if IsOpen(h.core.incidents, m) then 1 else 0 {
      OneOpen(h.core.incidents, clock, m);
    }
  }

  /** No restarts, which lose the alerter's memory, and no muting. */
  ghost predicate Undisturbed(es: seq<Event>) {
    forall i | 0 <= i < |es| :: !es[i].SetMute? && !es[i].Restart?
  }

  lemma {:induction false} RunKeepsAnnounced(h: Hub, clock: int, es: seq<Event>)
    requires Inv(h, clock) && Announced(h.core) && Feasible(h, clock, es) && Undisturbed(es)
    ensures Announced(After(h, es).core)
    decreases |es|
  {
    hide Inv, Announced, Allowed, ResultStep, Sweep, Rebuilt;
    if es != [] {
      var e := es[0];
      StepKeepsInv(h, clock, e);
      match e {
        case Result(r, now, seen, at) => ResultKeepsInv(h, clock, r, now, seen, at);
        case Check(now, at) => CheckKeepsInv(h, clock, now, at);
        case _ =>
      }
      RunKeepsAnnounced(Advance(h, e), Unix(e.now), es[1..]);
    }
  }

  /** Alert stream over runs. Once started, without mutes or restarts and with reloads that keep
      every DOWN monitor, the messages for each monitor and each agent strictly alternate DOWN and
      UP, and the last one says DOWN iff its incident is open. */
  lemma MessagesAlternate(reminderInterval: int, clock: int, config: Config, now: int, es: seq<Event>, m: string)
    requires CleanNames(config) && clock <= Unix(now)
    requires var h := Advance(Blank(reminderInterval), Restart(config, now));
             Feasible(h, Unix(now), es) && Undisturbed(es)
    ensures var h := After(Advance(Blank(reminderInterval), Restart(config, now)), es);
            StrictlyAlternates(Stream(h.core.alerter.sent, m), IsOpen(h.core.incidents, m))
  {
    hide After, Feasible, Advance, Inv, IsOpen;
    BlankInv(reminderInterval, clock);
    StepKeepsInv(Blank(reminderInterval), clock, Restart(config, now));
    RestartBlank(reminderInterval, config, now);
    RunKeepsAnnounced(Advance(Blank(reminderInterval), Restart(config, now)), Unix(now), es);
  }

  lemma RestartBlank(reminderInterval: int, config: Config, now: int)
    ensures Announced(Advance(Blank(reminderInterval), Restart(config, now)).core)
  {
  }

  /** Deduplication never suppresses a real transition: every status change of a monitor sends its
      message at once, and a result without one sends nothing. */
  lemma TransitionsAreAnnounced(h: Hub, clock: int, r: CheckResult, now: int, seen: int, at: int)
    requires Inv(h, clock) && Announced(h.core) && clock <= Unix(now) && r.monitor in h.mons
    ensures var h' := Advance(h, Result(r, now, seen, at));
            h'.core.alerter.sent == h.core.alerter.sent +
              if h'.mons[r.monitor].status == h.mons[r.monitor].status then []
              else [Message(r.monitor, h'.mons[r.monitor].status.StatusDown?, at)]
  {
    hide IsOpen, Disjoint, Announced, Recorded, Opened, ClosedUp;
    match TransitionOf(h.mons[r.monitor].status, Recorded(h.mons[r.monitor], r).status) {
      case NoTransition =>
      case ToDown => OpenedKeeps(h.core, clock, r.monitor, r.error, now, at);
      case ToUp => ClosedKeeps(h.core, clock, r.monitor, now, at);
    }
  }

  /** A reload that drops a DOWN monitor leaves its incident open; adding the monitor back and
      letting it fail opens a second one. */
  lemma DroppedMonitorLeaksIncident(h: Hub, clock: int, m: string, r: CheckResult, now: int, seen: int, at: int)
    requires Inv(h, clock) && m in h.mons && h.mons[m].status.StatusDown?
    requires r.monitor == m && !Succeeds(r)
    ensures var dropped := Advance(h, Reload(Config([], 3), now));
            var readded := Advance(dropped, Reload(Config([MonitorConfig(m, 1)], 3), now));
            |OpenSet(Advance(readded, Result(r, now, seen, at)).core.incidents, m)| == 2
  {
    hide Inv, IsOpen, OpenSet, Created, Disjoint;
    var dropped := Advance(h, Reload(Config([], 3), now));
    assert dropped.mons == map[];
    var readded := Advance(dropped, Reload(Config([MonitorConfig(m, 1)], 3), now));
    RebuiltStep(map[], [], MonitorConfig(m, 1), 3);
    assert [] + [MonitorConfig(m, 1)] == [MonitorConfig(m, 1)];
    assert readded.mons == map[m := NewMon(1)];
    assert Advance(readded, Result(r, now, seen, at)).core.incidents ==
           Created(h.core.incidents, m, Unix(now), r.error);
    MirrorsStatus(h, clock);
    OneMore(h.core.incidents, m, Unix(now), r.error);
  }

  lemma OneMore(table: seq<Incident>, m: string, at: int, cause: string)
    ensures |OpenSet(Created(table, m, at, cause), m)| == |OpenSet(table, m)| + 1
  {
    assert OpenSet(Created(table, m, at, cause), m) == OpenSet(table, m) + {|table|};
  }

  // ---------------------------------------------------------------- monitors under any names

  /** Every configured monitor, whatever its name, is DOWN iff it has an open incident. */
  ghost predicate Mirrors(h: Hub) {
    forall m | m in h.mons :: h.mons[m].status.StatusDown? <==> IsOpen(h.core.incidents, m)
  }

  /** No monitor is configured under the name of an agent whose heartbeat contradicts its status: a DOWN one
      must not be fresh, an UP one not stale. */
  ghost predicate Unmixed(h: Hub, threshold: int) {
    forall b | b in h.beats && AgentName(b.host) in h.mons ::
      if h.mons[AgentName(b.host)].status.StatusDown? then !Staleness.Fresh(b, threshold)
      else !(b.lastSeen < Unix(threshold))
  }

  /** What an event may not meet: a staleness pass no such monitor, a reload no open incident under a name it
      adds. */
  ghost predicate Harmless(h: Hub, e: Event) {
    match e
    case Check(now, _) => Unmixed(h, now - FIVE_MINUTES)
    case Reload(config, _) => forall n | n in Names(config.monitors) && n !in h.mons :: !IsOpen(h.core.incidents, n)
    case _ => true
  }

  lemma CheckedName(h: Hub, clock: int, b: Heartbeat, now: int, at: int)
    requires Disjoint(h.core.incidents, clock) && clock <= Unix(now) && HostsOrdered(h.beats) && b in h.beats
    ensures var threshold := now - FIVE_MINUTES;
            IsOpen(Advance(h, Check(now, at)).core.incidents, AgentName(b.host)) <==>
              (IsOpen(h.core.incidents, AgentName(b.host)) || b.lastSeen < Unix(threshold))
              && !Staleness.Fresh(b, threshold)
  {
    hide Disjoint, Sweep, IsOpen, Announced, StaleAmong, HostsOrdered;
    var threshold := now - FIVE_MINUTES;
    SweepKeeps(h.core, clock, h.beats, FIVE_MINUTES, now, at);
    StaleAmongIff(h.beats, threshold);
    HostIsUnique(h.beats, b);
    assert Hosts(StaleAmong(h.beats, threshold), AgentName(b.host)) <==> b.lastSeen < Unix(threshold);
    assert FreshHosts(h.beats, threshold, AgentName(b.host)) <==> Staleness.Fresh(b, threshold);
  }

  lemma UncheckedName(h: Hub, clock: int, m: string, now: int, at: int)
    requires Disjoint(h.core.incidents, clock) && clock <= Unix(now)
    requires forall b | b in h.beats :: m != AgentName(b.host)
    ensures IsOpen(Advance(h, Check(now, at)).core.incidents, m) <==> IsOpen(h.core.incidents, m)
  {
    hide Disjoint, Sweep, IsOpen, Announced, StaleAmong;
    SweepKeeps(h.core, clock, h.beats, FIVE_MINUTES, now, at);
    StaleAmongIff(h.beats, now - FIVE_MINUTES);
    assert !Hosts(StaleAmong(h.beats, now - FIVE_MINUTES), m) && !FreshHosts(h.beats, now - FIVE_MINUTES, m);
  }

  lemma StaleIsNotFresh(b: Heartbeat, threshold: int)
    ensures b.lastSeen < Unix(threshold) ==> !Staleness.Fresh(b, threshold)
  {
  }

  /** A staleness pass keeps monitors and incidents together iff no configured monitor shares its name with an
      agent whose heartbeat contradicts it. */
  lemma CheckMirrorsIff(h: Hub, clock: int, now: int, at: int)
    requires Disjoint(h.core.incidents, clock) && clock <= Unix(now) && HostsOrdered(h.beats) && Mirrors(h)
    ensures Mirrors(Advance(h, Check(now, at))) <==> Unmixed(h, now - FIVE_MINUTES)
  {
    hide Disjoint, Sweep, IsOpen, HostsOrdered, Unix, Staleness.Fresh, AgentName;
    var h' := Advance(h, Check(now, at));
    forall b | b in h.beats && AgentName(b.host) in h.mons
      ensures (h.mons[AgentName(b.host)].status.StatusDown? <==> IsOpen(h'.core.incidents, AgentName(b.host))) <==>
              if h.mons[AgentName(b.host)].status.StatusDown? then !Staleness.Fresh(b, now - FIVE_MINUTES)
              else !(b.lastSeen < Unix(now - FIVE_MINUTES))
    {
      CheckedName(h, clock, b, now, at);
      StaleIsNotFresh(b, now - FIVE_MINUTES);
    }
    forall m | m in h.mons && forall b | b in h.beats :: m != AgentName(b.host)
      ensures IsOpen(h'.core.incidents, m) <==> IsOpen(h.core.incidents, m)
    {
      UncheckedName(h, clock, m, now, at);
    }
  }

  /** A reload keeps them together iff no name it adds has an open incident. */
  lemma ReloadMirrorsIff(h: Hub, config: Config, now: int)
    requires Mirrors(h)
    ensures Mirrors(Advance(h, Reload(config, now))) <==> Harmless(h, Reload(config, now))
  {
    hide IsOpen;
    RebuiltNames(h.mons, config.monitors, config.defaultFailureThreshold);
  }

  lemma ResultMirrors(h: Hub, clock: int, r: CheckResult, now: int, seen: int, at: int)
    requires Disjoint(h.core.incidents, clock) && clock <= Unix(now) && Mirrors(h)
    ensures Disjoint(ResultStep(h, r, now, seen, at).core.incidents, Unix(now))
            && Mirrors(ResultStep(h, r, now, seen, at))
  {
    hide IsOpen, Disjoint, Announced, Recorded, Opened, ClosedUp;
    DisjointLater(h.core.incidents, clock, Unix(now));
    if r.monitor in h.mons {
      match TransitionOf(h.mons[r.monitor].status, Recorded(h.mons[r.monitor], r).status) {
        case NoTransition =>
        case ToDown => OpenedKeeps(h.core, clock, r.monitor, r.error, now, at);
        case ToUp => ClosedKeeps(h.core, clock, r.monitor, now, at);
      }
    }
  }

  lemma RestartMirrors(h: Hub, clock: int, config: Config, now: int)
    requires Disjoint(h.core.incidents, clock) && clock <= Unix(now)
    ensures Disjoint(RestartStep(h, config, now).core.incidents, Unix(now)) && Mirrors(RestartStep(h, config, now))
  {
    hide IsOpen, Disjoint, StaleResolved;
    var mons := Rebuilt(map[], config.monitors, config.defaultFailureThreshold);
    RebuiltNames(map[], config.monitors, config.defaultFailureThreshold);
    StaleResolvedKeeps(h.core.incidents, clock, mons, Unix(now));
    AllResolved(h.core.incidents, mons, Unix(now));
  }

  /** The tables are well formed and the monitors, under whatever names, mirror them. */
  ghost predicate Sound(h: Hub, clock: int) {
    Disjoint(h.core.incidents, clock) && HostsOrdered(h.beats) && Mirrors(h)
  }

  lemma TablesKept(h: Hub, clock: int, e: Event)
    requires Sound(h, clock) && clock <= Unix(e.now)
    ensures Disjoint(Advance(h, e).core.incidents, Unix(e.now)) && HostsOrdered(Advance(h, e).beats)
  {
    hide Disjoint, HostsOrdered, Mirrors, ResultStep, RestartStep, Rebuilt, Sweep, Unix;
    DisjointLater(h.core.incidents, clock, Unix(e.now));
    match e {
      case Result(r, now, seen, at) => ResultMirrors(h, clock, r, now, seen, at); ResultBeats(h, r, now, seen, at);
      case Check(now, at) => SweepKeeps(h.core, clock, h.beats, FIVE_MINUTES, now, at);
      case Beat(host, ts, now) => UpsertKeepsOrdered(h.beats, host, Unix(ts));
      case Restart(config, now) => RestartMirrors(h, clock, config, now); RestartBeats(h, config, now);
      case _ =>
    }
  }

  lemma ResultBeats(h: Hub, r: CheckResult, now: int, seen: int, at: int)
    ensures ResultStep(h, r, now, seen, at).beats == h.beats
  {
  }

  lemma RestartBeats(h: Hub, config: Config, now: int)
    ensures RestartStep(h, config, now).beats == h.beats
  {
  }

  /** Exactly when an event keeps every monitor DOWN iff it has an open incident, under any names. */
  lemma StepMirrorsIff(h: Hub, clock: int, e: Event)
    requires Sound(h, clock) && clock <= Unix(e.now)
    ensures Sound(Advance(h, e), Unix(e.now)) <==> Harmless(h, e)
  {
    hide Disjoint, HostsOrdered, Mirrors, Unmixed, ResultStep, RestartStep, ReloadStep, Sweep, Unix, Harmless;
    TablesKept(h, clock, e);
    match e {
      case Result(r, now, seen, at) => ResultMirrors(h, clock, r, now, seen, at); Unconditional(h, e);
      case Reload(config, now) => ReloadMirrorsIff(h, config, now);
      case Check(now, at) => CheckMirrorsIff(h, clock, now, at); ConditionOfCheck(h, now, at);
      case Beat(host, ts, now) => SameMirror(h, Advance(h, e)); Unconditional(h, e);
      case SetMute(name, muted, now) => SameMirror(h, Advance(h, e)); Unconditional(h, e);
      case Restart(config, now) => RestartMirrors(h, clock, config, now); Unconditional(h, e);
    }
  }

  lemma SameMirror(h: Hub, k: Hub)
    requires Mirrors(h) && k.mons == h.mons && k.core.incidents == h.core.incidents
    ensures Mirrors(k)
  {
  }

  lemma Unconditional(h: Hub, e: Event)
    requires !e.Check? && !e.Reload?
    ensures Harmless(h, e)
  {
  }

  lemma ConditionOfCheck(h: Hub, now: int, at: int)
    ensures Harmless(h, Check(now, at)) <==> Unmixed(h, now - FIVE_MINUTES)
  {
  }

  /** Clean names and reloads that keep every DOWN monitor meet the condition. */
  lemma AllowedIsHarmless(h: Hub, clock: int, e: Event)
    requires Inv(h, clock) && Allowed(h, e)
    ensures Harmless(h, e)
  {
    hide IsOpen, Disjoint, IsAgentName;
    if e.Check? {
      forall b | b in h.beats ensures AgentName(b.host) !in h.mons { AgentNames(b.host, b.host); }
    }
  }

  ghost predicate HarmlessRun(h: Hub, clock: int, es: seq<Event>)
    decreases |es|
  {
    es == []
    || (clock <= Unix(es[0].now) && Harmless(h, es[0]) && HarmlessRun(Advance(h, es[0]), Unix(es[0].now), es[1..]))
  }

  lemma {:induction false} RunStaysSound(h: Hub, clock: int, es: seq<Event>)
    requires Sound(h, clock) && HarmlessRun(h, clock, es)
    ensures Sound(After(h, es), ClockAfter(clock, es))
    decreases |es|
  {
    hide Sound, Advance, Harmless;
    if es != [] {
      StepMirrorsIff(h, clock, es[0]);
      RunStaysSound(Advance(h, es[0]), Unix(es[0].now), es[1..]);
      assert es[1..] != [] ==> es[1..][|es[1..]| - 1] == es[|es| - 1];
    }
  }

  lemma BlankSound(reminderInterval: int, clock: int)
    ensures Sound(Blank(reminderInterval), clock)
  {
  }

  /** Over any run of such events, with monitors under any names: a monitor is DOWN iff it has exactly one open
      incident and UP iff it has none. */
  lemma HarmlessRunsMirror(reminderInterval: int, clock: int, es: seq<Event>, m: string)
    requires HarmlessRun(Blank(reminderInterval), clock, es) && m in After(Blank(reminderInterval), es).mons
    ensures var h := After(Blank(reminderInterval), es);
            |OpenSet(h.core.incidents, m)| == if h.mons[m].status.StatusDown? then 1 else 0
  {
    hide After, HarmlessRun, Advance, Disjoint, OpenSet, IsOpen;
    BlankSound(reminderInterval, clock);
    RunStaysSound(Blank(reminderInterval), clock, es);
    OneOpen(After(Blank(reminderInterval), es).core.incidents, ClockAfter(clock, es), m);
  }

  lemma AfterStep(h: Hub, e: Event, es: seq<Event>)
    ensures After(h, [e] + es) == After(Advance(h, e), es)
  {
    hide Advance;
    assert ([e] + es)[1..] == es;
  }

  lemma AfterFour(h: Hub, a: Event, b: Event, c: Event, d: Event)
    ensures After(h, [a, b, c, d]) == Advance(Advance(Advance(Advance(h, a), b), c), d)
  {
    hide Advance;
    AfterStep(h, a, [b] + ([c] + ([d] + [])));
    AfterStep(Advance(h, a), b, [c] + ([d] + []));
    AfterStep(Advance(Advance(h, a), b), c, [d] + []);
    AfterStep(Advance(Advance(Advance(h, a), b), c), d, []);
    assert [a] + ([b] + ([c] + ([d] + []))) == [a, b, c, d];
  }

  /** The first three events of the run below: one monitor, under the agent's name, is DOWN, and the agent has
      just been heard. */
  lemma SharedNameDown(reminderInterval: int, host: string, r: CheckResult, t: int)
    requires r.monitor == AgentName(host) && !Succeeds(r)
    ensures var started := Advance(Blank(reminderInterval), Restart(Config([MonitorConfig(AgentName(host), 1)], 3), t));
            var h := Advance(Advance(started, Result(r, t, t, t)), Beat(host, t, t));
            && Sound(h, Unix(t)) && AgentName(host) in h.mons && h.mons[AgentName(host)].status.StatusDown?
            && h.beats == [Heartbeat(host, Unix(t))]
  {
    hide Sound, IsOpen, Disjoint, Announce, StaleResolved, Unix, AgentName;
    var m := MonitorConfig(AgentName(host), 1);
    var begin := Restart(Config([m], 3), t);
    var started := Advance(Blank(reminderInterval), begin);
    var failed := Advance(started, Result(r, t, t, t));
    BlankSound(reminderInterval, Unix(t));
    StepMirrorsIff(Blank(reminderInterval), Unix(t), begin);
    StepMirrorsIff(started, Unix(t), Result(r, t, t, t));
    StepMirrorsIff(failed, Unix(t), Beat(host, t, t));
    RebuiltStep(map[], [], m, 3);
    assert [] + [m] == [m];
    assert started.mons == map[AgentName(host) := NewMon(1)];
  }

  /** Such a name breaks it: a monitor `agent:host` goes DOWN, `host` reports, and the next staleness pass resolves
      the monitor's incident while it is still DOWN. */
  lemma SharedNameLosesIncident(reminderInterval: int, host: string, r: CheckResult, t: int)
    requires r.monitor == AgentName(host) && !Succeeds(r)
    ensures var es := [Restart(Config([MonitorConfig(AgentName(host), 1)], 3), t), Result(r, t, t, t),
                       Beat(host, t, t), Check(t, t)];
            var h := After(Blank(reminderInterval), es);
            && AgentName(host) in h.mons && h.mons[AgentName(host)].status.StatusDown?
            && !IsOpen(h.core.incidents, AgentName(host))
  {
    hide After, Disjoint, HostsOrdered, Mirrors, IsOpen, AgentName, Sweep, ResultStep, RestartStep;
    var begin := Restart(Config([MonitorConfig(AgentName(host), 1)], 3), t);
    var h := Advance(Advance(Advance(Blank(reminderInterval), begin), Result(r, t, t, t)), Beat(host, t, t));
    AfterFour(Blank(reminderInterval), begin, Result(r, t, t, t), Beat(host, t, t), Check(t, t));
    SharedNameDown(reminderInterval, host, r, t);
    CheckedName(h, Unix(t), Heartbeat(host, Unix(t)), t, t);
  }
}
