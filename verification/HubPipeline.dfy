/** The hub: check results through state machine, incidents and alerts; config reload; the startup
    sweep over stale incidents; and the staleness checker working on the same tables. */
module HubPipeline {
  import opened Monitors
  import opened Incidents
  import opened Options
  import opened Tables
  import opened Alerts
  import opened Staleness

  datatype MonitorConfig = MonitorConfig(name: string, failureThreshold: int)

  datatype Config = Config(monitors: seq<MonitorConfig>, defaultFailureThreshold: int)

  function ThresholdOf(m: MonitorConfig, default: int): int {
    if m.failureThreshold == 0 then default else m.failureThreshold
  }

  type Mons = map<string, Mon>

  /** `checks`, the incidents in `core` and `beats` are tables; the rest is in memory. */
  datatype Hub = Hub(mons: Mons, core: Core, beats: seq<Heartbeat>, checks: seq<Row<string>>,
                     lastResults: map<string, CheckResult>, lastCheckAt: map<string, int>)

  // ---------------------------------------------------------------- what each operation does

  /** The rebuilt state map: known monitors keep their state under the new threshold. */
  function Rebuilt(earlier: Mons, monitors: seq<MonitorConfig>, default: int): Mons {
    if monitors == [] then map[]
    else
      var n := |monitors| - 1;
      var m := monitors[n];
      var threshold := ThresholdOf(m, default);
      Rebuilt(earlier, monitors[..n], default)
        [m.name := if m.name in earlier then earlier[m.name].(threshold := threshold) else NewMon(threshold)]
  }

  lemma RebuiltStep(earlier: Mons, monitors: seq<MonitorConfig>, m: MonitorConfig, default: int)
    ensures Rebuilt(earlier, monitors + [m], default) ==
            var threshold := ThresholdOf(m, default);
            Rebuilt(earlier, monitors, default)
              [m.name := if m.name in earlier then earlier[m.name].(threshold := threshold) else NewMon(threshold)]
  {
    assert (monitors + [m])[..|monitors|] == monitors;
  }

  ghost predicate Named(monitors: seq<MonitorConfig>, n: string) {
    exists i :: 0 <= i < |monitors| && monitors[i].name == n
  }

  /** Entry `i` is the last one under its name. */
  ghost predicate LastEntry(monitors: seq<MonitorConfig>, i: nat) {
    i < |monitors| && forall j | i < j < |monitors| :: monitors[j].name != monitors[i].name
  }

  /** The entry gives its monitor the threshold, or the default does if that is zero; nothing else about a known
      monitor changes, and a new one has seen nothing. */
  ghost predicate Governs(c: MonitorConfig, default: int, earlier: Mons, mons: Mons) {
    var t := if c.failureThreshold != 0 then c.failureThreshold else default;
    && c.name in mons
    && mons[c.name] == if c.name in earlier then earlier[c.name].(threshold := t) else Mon(StatusUp, t, 0, "", 0, 0)
  }

  /** The monitors are those of the configuration, each as the last entry of its name has it. */
  ghost predicate Configured(earlier: Mons, mons: Mons, config: Config) {
    && (forall n :: n in mons <==> Named(config.monitors, n))
    && forall i: nat | LastEntry(config.monitors, i) ::
         Governs(config.monitors[i], config.defaultFailureThreshold, earlier, mons)
  }

  lemma NamedStep(monitors: seq<MonitorConfig>, m: MonitorConfig, n: string)
    ensures Named(monitors + [m], n) <==> Named(monitors, n) || n == m.name
  {
    var all := monitors + [m];
    if Named(monitors, n) {
      var i :| 0 <= i < |monitors| && monitors[i].name == n;
      assert all[i].name == n;
    }
    if n == m.name { assert all[|monitors|].name == n; }
  }

  lemma LastEntryStep(monitors: seq<MonitorConfig>, m: MonitorConfig, i: nat)
    requires LastEntry(monitors + [m], i) && i != |monitors|
    ensures LastEntry(monitors, i) && (monitors + [m])[i] == monitors[i] && monitors[i].name != m.name
  {
    var all := monitors + [m];
    assert all[|monitors|] == m;
    forall j | i < j < |monitors| ensures monitors[j].name != monitors[i].name { assert all[j] == monitors[j]; }
  }

  lemma ConfiguredStep(earlier: Mons, mons: Mons, monitors: seq<MonitorConfig>, m: MonitorConfig, default: int)
    requires Configured(earlier, mons, Config(monitors, default))
    ensures var t := ThresholdOf(m, default);
            var state := if m.name in earlier then earlier[m.name].(threshold := t) else NewMon(t);
            Configured(earlier, mons[m.name := state], Config(monitors + [m], default))
  {
    hide LastEntry, Named;
    forall n ensures Named(monitors + [m], n) <==> Named(monitors, n) || n == m.name { NamedStep(monitors, m, n); }
    forall i: nat | LastEntry(monitors + [m], i) && i != |monitors|
      ensures LastEntry(monitors, i) && i < |monitors|
      ensures (monitors + [m])[i] == monitors[i] && monitors[i].name != m.name
    {
      LastEntryStep(monitors, m, i);
      LastEntryInside(monitors, i);
    }
    forall i: nat | LastEntry(monitors + [m], i) ensures i <= |monitors| { LastEntryInside(monitors + [m], i); }
  }

  lemma LastEntryInside(monitors: seq<MonitorConfig>, i: nat)
    requires LastEntry(monitors, i)
    ensures i < |monitors|
  {
  }

  lemma {:induction false} RebuiltConfigures(earlier: Mons, monitors: seq<MonitorConfig>, default: int)
    ensures Configured(earlier, Rebuilt(earlier, monitors, default), Config(monitors, default))
  {
    hide Configured;
    if monitors == [] {
      NothingConfigured(earlier, default);
    } else {
      var k := |monitors| - 1;
      RebuiltConfigures(earlier, monitors[..k], default);
      ConfiguredStep(earlier, Rebuilt(earlier, monitors[..k], default), monitors[..k], monitors[k], default);
      assert monitors == monitors[..k] + [monitors[k]];
    }
  }

  lemma ConfiguredNames(earlier: Mons, mons: Mons, config: Config)
    requires Configured(earlier, mons, config)
    ensures forall n :: n in mons <==> Named(config.monitors, n)
  {
  }

  lemma NothingConfigured(earlier: Mons, default: int)
    ensures Configured(earlier, Rebuilt(earlier, [], default), Config([], default))
  {
  }

  /** Open incidents of monitors that are unknown or UP are resolved. */
  function StaleResolved(table: seq<Incident>, mons: Mons, at: int): seq<Incident> {
    seq(|table|, i requires 0 <= i < |table| =>
      if table[i].resolvedAt.None? && (table[i].monitor !in mons || mons[table[i].monitor].status.StatusUp?)
      then table[i].(resolvedAt := Some(at)) else table[i])
  }

  function Announce(c: Core, m: string, t: Transition, error: string, now: int, at: int): Core {
    match t
    case NoTransition => c
    case ToDown => Opened(c, m, error, now, at)
    case ToUp => ClosedUp(c, m, now, at)
  }

  /** `now` is read on arrival, `seen` after the state machine, `at` by the alerter. */
  function ResultStep(h: Hub, r: CheckResult, now: int, seen: int, at: int): Hub {
    var checks := h.checks + [Row(r.monitor, Unix(now), r.status)];
    if r.monitor !in h.mons then h.(checks := checks)
    else
      var before := h.mons[r.monitor];
      var after := Recorded(before, r);
      Hub(h.mons[r.monitor := after],
          Announce(h.core, r.monitor, TransitionOf(before.status, after.status), r.error, now, at),
          h.beats, checks, h.lastResults[r.monitor := r], h.lastCheckAt[r.monitor := Unix(seen)])
  }

  /** A reload forgets the last result of every monitor it drops. */
  function ReloadStep(h: Hub, config: Config): Hub {
    var mons := Rebuilt(h.mons, config.monitors, config.defaultFailureThreshold);
    var gone := h.lastResults.Keys - mons.Keys;
    h.(mons := mons, lastResults := h.lastResults - gone, lastCheckAt := h.lastCheckAt - gone)
  }

  /** A restart builds hub and alerter anew over the stored tables and mutes, and resolves stale incidents. */
  function RestartStep(h: Hub, config: Config, now: int): Hub {
    var mons := Rebuilt(map[], config.monitors, config.defaultFailureThreshold);
    Hub(mons,
        Core(StaleResolved(h.core.incidents, mons, Unix(now)), h.core.alerter.(lastDown := map[])),
        h.beats, h.checks, map[], map[])
  }

  datatype Event =
    | Result(r: CheckResult, now: int, seen: int, at: int)
    | Reload(config: Config, now: int)
    | Check(now: int, at: int)
    | Beat(host: string, ts: int, now: int)
    | SetMute(name: string, muted: bool, now: int)
    | Restart(config: Config, now: int)

  function Advance(h: Hub, e: Event): Hub {
    match e
    case Result(r, now, seen, at) => ResultStep(h, r, now, seen, at)
    case Reload(config, _) => ReloadStep(h, config)
    case Check(now, at) => h.(core := Sweep(h.core, h.beats, FIVE_MINUTES, now, at))
    case Beat(host, ts, _) => h.(beats := Upserted(h.beats, host, Unix(ts)))
    case SetMute(name, muted, _) =>
      h.(core := Core(h.core.incidents, Alerts.Step(h.core.alerter, if muted then Mute(name) else Unmute(name))))
    case Restart(config, now) => RestartStep(h, config, now)
  }

  // ---------------------------------------------------------------- the code

  class HubService {
    var monitorStates: map<string, MonitorState>
    var lastResults: map<string, CheckResult>
    var lastCheckAt: map<string, int>
    const store: Store
    const alerter: NtfyClient
    const incidentManager: IncidentManager

    /** Every monitor has a state object of its own. */
    ghost predicate Valid()
      reads this`monitorStates
    {
      && incidentManager.store == store
      && forall n, m | n in monitorStates && m in monitorStates && n != m :: monitorStates[n] != monitorStates[m]
    }

    ghost function Mons(): Mons
      reads this`monitorStates, monitorStates.Values
    {
      map n | n in monitorStates :: monitorStates[n].View()
    }

    lemma MonsKeys()
      ensures Mons().Keys == monitorStates.Keys
    {
    }

    ghost function View(): Hub
      reads this, monitorStates.Values, store, alerter
    {
      Hub(Mons(), Core(store.incidents, alerter.View()), store.heartbeats, store.checkResults, lastResults, lastCheckAt)
    }

    constructor (store: Store, alerter: NtfyClient)
      ensures Valid() && this.store == store && this.alerter == alerter
      ensures monitorStates == map[] && lastResults == map[] && lastCheckAt == map[] && Mons() == map[]
    {
      monitorStates, lastResults, lastCheckAt := map[], map[], map[];
      this.store := store;
      this.alerter := alerter;
      incidentManager := new IncidentManager(store);
    }

    /** The incident and the alert of a transition. `now` is read on arrival, `at` by the alerter. */
    method HandleAndAlert(monitor: string, transition: Transition, error: string, now: int, at: int)
      requires incidentManager.store == store
      modifies store`incidents, alerter
      ensures Core(store.incidents, alerter.View()) ==
              Announce(old(Core(store.incidents, alerter.View())), monitor, transition, error, now, at)
    {
      var _ := incidentManager.HandleTransition(monitor, transition, Unix(now), error);
      match transition {
        case ToDown => alerter.SendDown(monitor, at);
        case ToUp => alerter.SendRecovery(monitor, at);
        case NoTransition =>
      }
    }

    /** The state machine's part of a result, under the lock. */
    method Record(result: CheckResult, seen: int) returns (transition: Transition)
      requires Valid() && result.monitor in monitorStates
      modifies this`lastResults, this`lastCheckAt, monitorStates.Values
      ensures Valid() && monitorStates == old(monitorStates)
      ensures Mons() == old(Mons())[result.monitor := Recorded(old(Mons())[result.monitor], result)]
      ensures transition == TransitionOf(old(Mons())[result.monitor].status, Mons()[result.monitor].status)
      ensures lastResults == old(lastResults)[result.monitor := result]
      ensures lastCheckAt == old(lastCheckAt)[result.monitor := Unix(seen)]
    {
      hide Recorded, TransitionOf, Unix;
      var ms := monitorStates[result.monitor];
      transition := ms.RecordResult(result);
      lastResults := lastResults[result.monitor := result];
      lastCheckAt := lastCheckAt[result.monitor := Unix(seen)];
      assert Mons() == old(Mons())[result.monitor := Recorded(old(Mons())[result.monitor], result)];
    }

    /** One result: store, state machine, incident, alert. */
    method ProcessResult(result: CheckResult, now: int, seen: int, at: int)
      requires Valid()
      modifies this`lastResults, this`lastCheckAt, monitorStates.Values, store`checkResults, store`incidents, alerter
      ensures Valid() && monitorStates == old(monitorStates)
      ensures View() == Advance(old(View()), Result(result, now, seen, at))
    {
      hide Announce, Recorded, TransitionOf, NtfyClient.View, MonitorState.View, Unix;
      store.InsertCheckResult(result.monitor, Unix(now), result.status);
      if result.monitor !in monitorStates {
        return;
      }
      var transition := Record(result, seen);
      HandleAndAlert(result.monitor, transition, result.error, now, at);
    }

    /** `states` realises `mons`: known monitors by the existing objects, others by new ones. */
    ghost predicate Realises(states: map<string, MonitorState>, mons: Mons)
      reads this`monitorStates, states.Values
    {
      && states.Keys == mons.Keys
      && (forall n | n in states && n in monitorStates :: states[n] == monitorStates[n])
      && (forall n | n in states && n !in monitorStates :: states[n] !in monitorStates.Values)
      && (forall n, m | n in states && m in states && n != m :: states[n] != states[m])
      && (forall n | n in states :: states[n].View() == mons[n])
    }

    /** The existing objects still carry the states of `before`, up to their thresholds. */
    ghost predicate Carries(before: Mons)
      reads this`monitorStates, monitorStates.Values
    {
      && monitorStates.Keys == before.Keys
      && forall n | n in monitorStates :: monitorStates[n].View().(threshold := 0) == before[n].(threshold := 0)
    }

    /** A monitor that still exists keeps its state object under the new threshold. */
    method Keep(states: map<string, MonitorState>, name: string, threshold: int, ghost mons: Mons, ghost before: Mons)
      returns (kept: map<string, MonitorState>)
      requires Valid() && Carries(before) && Realises(states, mons) && name in before
      modifies monitorStates.Values
      ensures kept == states[name := monitorStates[name]]
      ensures Carries(before) && Realises(kept, mons[name := before[name].(threshold := threshold)])
    {
      hide MonitorState.View;
      var existing := monitorStates[name];
      existing.SetFailureThreshold(threshold);
      kept := states[name := existing];
      assert forall n | n in states && n != name :: states[n] != existing;
    }

    /** A monitor that is new to the configuration gets a state of its own. */
    method Create(states: map<string, MonitorState>, name: string, threshold: int, ghost mons: Mons, ghost before: Mons)
      returns (grown: map<string, MonitorState>)
      requires Valid() && Carries(before) && Realises(states, mons) && name !in before
      ensures name in grown && fresh(grown[name]) && grown == states[name := grown[name]]
      ensures Carries(before) && Realises(grown, mons[name := NewMon(threshold)])
    {
      var created := new MonitorState(name, threshold);
      grown := states[name := created];
    }

    method ReloadConfig(config: Config)
      requires Valid()
      modifies this`monitorStates, this`lastResults, this`lastCheckAt, monitorStates.Values
      ensures Valid() && fresh(monitorStates.Values - old(monitorStates.Values))
      ensures Configured(old(Mons()), Mons(), config)
      ensures forall n :: n in lastResults <==> n in old(lastResults) && Named(config.monitors, n)
      ensures forall n | n in lastResults :: lastResults[n] == old(lastResults)[n]
      ensures forall n :: n in lastCheckAt <==>
                n in old(lastCheckAt) && !(n in old(lastResults) && !Named(config.monitors, n))
      ensures forall n | n in lastCheckAt :: lastCheckAt[n] == old(lastCheckAt)[n]
      ensures View() == ReloadStep(old(View()), config)
    {
      hide Rebuilt, Configured, Named, MonitorState.View, NtfyClient.View, HubService.Valid, HubService.Mons;
      RebuildStates(config);
      ConfiguredNames(old(Mons()), Mons(), config);
      MonsKeys();
      ForgetRemoved();
    }

    /** Last results and check times of monitors that are gone are deleted. */
    method ForgetRemoved()
      modifies this`lastResults, this`lastCheckAt
      ensures var gone := old(lastResults).Keys - monitorStates.Keys;
              lastResults == old(lastResults) - gone && lastCheckAt == old(lastCheckAt) - gone
    {
      var todo := lastResults.Keys;
      ghost var gone: set<string> := {};
      while todo != {}
        invariant todo + gone <= old(lastResults).Keys
        invariant gone == (old(lastResults).Keys - todo) - monitorStates.Keys
        invariant lastResults == old(lastResults) - gone && lastCheckAt == old(lastCheckAt) - gone
      {
        assert (forall name :: name !in todo) ==> todo == {};
        var name :| name in todo;
        todo := todo - {name};
        if name !in monitorStates {
          lastResults := lastResults - {name};
          lastCheckAt := lastCheckAt - {name};
          gone := gone + {name};
        }
      }
    }

    method RebuildStates(config: Config)
      requires Valid()
      modifies this`monitorStates, monitorStates.Values
      ensures Valid() && fresh(monitorStates.Values - old(monitorStates.Values))
      ensures Configured(old(Mons()), Mons(), config)
      ensures Mons() == Rebuilt(old(Mons()), config.monitors, config.defaultFailureThreshold)
    {
      hide Realises, Carries, Rebuilt, Configured, MonitorState.View, Recorded, NewMon;
      ghost var before := Mons();
      var newStates: map<string, MonitorState> := map[];
      ghost var mons: Mons := map[];
      NothingYet(before, config.defaultFailureThreshold);
      for i := 0 to |config.monitors|
        invariant monitorStates == old(monitorStates) && before.Keys == monitorStates.Keys
        invariant fresh(newStates.Values - monitorStates.Values)
        invariant mons == Rebuilt(before, config.monitors[..i], config.defaultFailureThreshold)
        invariant Carries(before) && Realises(newStates, mons)
      {
        var m := config.monitors[i];
        assert config.monitors[..i + 1] == config.monitors[..i] + [m];
        RebuiltStep(before, config.monitors[..i], m, config.defaultFailureThreshold);
        var threshold := if m.failureThreshold == 0 then config.defaultFailureThreshold else m.failureThreshold;
        if m.name in monitorStates {
          newStates := Keep(newStates, m.name, threshold, mons, before);
        } else {
          newStates := Create(newStates, m.name, threshold, mons, before);
        }
        mons := mons[m.name := if m.name in before then before[m.name].(threshold := threshold) else NewMon(threshold)];
      }
      assert config.monitors[..|config.monitors|] == config.monitors;
      RebuiltConfigures(before, config.monitors, config.defaultFailureThreshold);
      assert Config(config.monitors, config.defaultFailureThreshold) == config;
      AllAdopted(newStates, mons);
      monitorStates := newStates;
      assert Mons() == mons;
    }

    lemma NothingYet(before: Mons, default: int)
      requires before == Mons()
      ensures Carries(before) && Realises(map[], map[]) && Rebuilt(before, [], default) == map[]
    {
    }

    lemma AllAdopted(states: map<string, MonitorState>, mons: Mons)
      requires Realises(states, mons)
      ensures (map n | n in states :: states[n].View()) == mons
      ensures forall n, m | n in states && m in states && n != m :: states[n] != states[m]
    {
    }

    method ResolveStaleIncidents(now: int)
      requires Valid()
      requires forall i | 0 <= i < |store.incidents| :: store.incidents[i].id == i + 1
      modifies store`incidents
      ensures |store.incidents| == |old(store.incidents)|
      ensures forall i | 0 <= i < |store.incidents| ::
                var before := old(store.incidents)[i];
                store.incidents[i] ==
                if before.resolvedAt == None
                   && (before.monitor !in old(Mons()) || old(Mons())[before.monitor].status == StatusUp)
                then before.(resolvedAt := Some(Unix(now))) else before
      ensures store.incidents == StaleResolved(old(store.incidents), old(Mons()), Unix(now))
    {
      ghost var table, mons := store.incidents, Mons();
      for i := 0 to |store.incidents|
        invariant |store.incidents| == |table| && Mons() == mons
        invariant forall j | 0 <= j < i :: store.incidents[j] == StaleResolved(table, mons, Unix(now))[j]
        invariant forall j | i <= j < |table| :: store.incidents[j] == table[j]
      {
        var inc := store.incidents[i];
        if inc.resolvedAt.None? {
          if inc.monitor !in monitorStates || monitorStates[inc.monitor].status == StatusUp {
            store.ResolveIncident(inc.id, Unix(now));
          }
        }
      }
    }

    /** The start of a fresh hub: states from the configuration, the stored mutes, then the stale incidents. */
    method Start(config: Config, muted: set<string>, now: int)
      requires Valid() && monitorStates == map[] && lastResults == map[] && lastCheckAt == map[]
      requires forall i | 0 <= i < |store.incidents| :: store.incidents[i].id == i + 1
      modifies this`monitorStates, store`incidents, alerter
      ensures Valid() && fresh(monitorStates.Values) && Configured(map[], Mons(), config)
      ensures var mons := Rebuilt(map[], config.monitors, config.defaultFailureThreshold);
              View() == Hub(mons,
                            Core(StaleResolved(old(store.incidents), mons, Unix(now)),
                                 old(alerter.View()).(muted := muted)),
                            store.heartbeats, store.checkResults, map[], map[])
    {
      hide Rebuilt, Configured, StaleResolved, MonitorState.View, Unix, Recorded, Announce, HubService.Valid;
      RebuildStates(config);
      alerter.SetMutedNames(muted);
      ResolveStaleIncidents(now);
    }

    /** A restart over existing tables and stored mutes builds hub and alerter anew. `before` is the hub that
        ran on these tables last. */
    static method Boot(store: Store, reminderInterval: int, muted: set<string>, config: Config, now: int,
                       ghost before: Hub)
      returns (hub: HubService)
      requires forall i | 0 <= i < |store.incidents| :: store.incidents[i].id == i + 1
      requires before.core.incidents == store.incidents && before.beats == store.heartbeats
               && before.checks == store.checkResults
      requires before.core.alerter.reminder == New(reminderInterval).reminder && before.core.alerter.muted == muted
      modifies store`incidents
      ensures fresh(hub) && fresh(hub.alerter) && hub.store == store && hub.Valid() && fresh(hub.monitorStates.Values)
      ensures Configured(map[], hub.Mons(), config)
      ensures hub.View() == Unsent(Advance(before, Restart(config, now)))
    {
      hide Rebuilt, Configured, StaleResolved, MonitorState.View, NtfyClient.View, HubService.Mons, Unix, Recorded,
           Announce;
      var alerter := new NtfyClient(reminderInterval);
      hub := new HubService(store, alerter);
      hub.Start(config, muted, now);
    }
  }

  /** A hub without the record of what was sent: a process does not remember its predecessor's messages. */
  function Unsent(h: Hub): Hub {
    h.(core := Core(h.core.incidents, h.core.alerter.(sent := [])))
  }
}
