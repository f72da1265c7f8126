/** The agent staleness checker: incidents and alerts for agents that stopped sending metrics. */
module Staleness {
  import opened Incidents
  import opened Alerts
  import opened Options

  /** The incident table together with the alerter: what opening and closing an incident changes. */
  datatype Core = Core(incidents: seq<Incident>, alerter: Alerter)

  function Opened(c: Core, m: string, cause: string, now: int, at: int): Core {
    Core(Created(c.incidents, m, Unix(now), cause), Alerts.Step(c.alerter, Down(m, at)))
  }

  function ClosedUp(c: Core, m: string, now: int, at: int): Core {
    Core(if IsOpen(c.incidents, m) then Resolved(c.incidents, c.incidents[OpenIndex(c.incidents, m)].id, Unix(now))
         else c.incidents,
         Alerts.Step(c.alerter, Recovery(m, at)))
  }

  function AgentName(host: string): string { "agent:" + host }

  function Cause(host: string): string { "no metrics from " + host }

  predicate IsAgentName(name: string) { "agent:" <= name }

  lemma AgentNames(h: string, g: string)
    ensures IsAgentName(AgentName(h))
    ensures AgentName(h) == AgentName(g) <==> h == g
  {
    assert AgentName(h)[6..] == h && AgentName(g)[6..] == g;
  }

  /** First pass: every stale agent without an open incident gets one. */
  function OpenStale(c: Core, stale: seq<Heartbeat>, now: int, at: int): Core {
    if stale == [] then c
    else
      var n := |stale| - 1;
      var before := OpenStale(c, stale[..n], now, at);
      var host := stale[n].host;
      if IsOpen(before.incidents, AgentName(host)) then before
      else Opened(before, AgentName(host), Cause(host), now, at)
  }

  predicate Fresh(b: Heartbeat, threshold: int) { b.lastSeen * SECOND >= threshold }

  /** Second pass: every fresh agent with an open incident has it resolved. */
  function CloseFresh(c: Core, beats: seq<Heartbeat>, threshold: int, now: int, at: int): Core {
    if beats == [] then c
    else
      var n := |beats| - 1;
      var before := CloseFresh(c, beats[..n], threshold, now, at);
      var name := AgentName(beats[n].host);
      if Fresh(beats[n], threshold) && IsOpen(before.incidents, name) then ClosedUp(before, name, now, at) else before
  }

  function Sweep(c: Core, beats: seq<Heartbeat>, window: int, now: int, at: int): Core {
    CloseFresh(OpenStale(c, StaleAmong(beats, now - window), now, at), beats, now - window, now, at)
  }

  const FIVE_MINUTES := 300 * SECOND

  class StalenessChecker {
    const store: Store
    const alerter: NtfyClient
    const threshold: int

    constructor (store: Store, alerter: NtfyClient, threshold: int)
      ensures this.store == store && this.alerter == alerter
      ensures this.threshold == if threshold == 0 then 300_000_000_000 else threshold
    {
      this.store, this.alerter := store, alerter;
      this.threshold := if threshold == 0 then FIVE_MINUTES else threshold;
    }

    ghost function View(): Core
      reads store, alerter
    {
      Core(store.incidents, alerter.View())
    }

    /** The first loop: an incident and a DOWN alert for each stale agent that has none. */
    method OpenIncidents(staleAgents: seq<Heartbeat>, now: int, at: int)
      modifies store`incidents, alerter
      ensures View() == OpenStale(old(View()), staleAgents, now, at)
    {
      for i := 0 to |staleAgents|
        invariant View() == OpenStale(old(View()), staleAgents[..i], now, at)
      {
        assert staleAgents[..i + 1][..i] == staleAgents[..i];
        var monitorName := AgentName(staleAgents[i].host);
        var inc := store.GetOpenIncident(monitorName);
        if inc.None? {
          var cause := Cause(staleAgents[i].host);
          var _ := store.CreateIncident(monitorName, Unix(now), cause);
          alerter.SendDown(monitorName, at);
        }
      }
      assert staleAgents[..|staleAgents|] == staleAgents;
    }

    /** The second loop: agents with a fresh heartbeat get their incident resolved. */
    method ResolveRecovered(beats: seq<Heartbeat>, cutoff: int, now: int, at: int)
      modifies store`incidents, alerter
      ensures View() == CloseFresh(old(View()), beats, cutoff, now, at)
    {
      for i := 0 to |beats|
        invariant View() == CloseFresh(old(View()), beats[..i], cutoff, now, at)
      {
        assert beats[..i + 1][..i] == beats[..i];
        if beats[i].lastSeen * SECOND < cutoff {
          continue;
        }
        var monitorName := AgentName(beats[i].host);
        var inc := store.GetOpenIncident(monitorName);
        if inc.Some? {
          store.ResolveIncident(inc.value.id, Unix(now));
          alerter.SendRecovery(monitorName, at);
        }
      }
      assert beats[..|beats|] == beats;
    }

    /** One pass at `now`; the alerter reads its clock as `at`. */
    method Check(now: int, at: int)
      modifies store`incidents, alerter
      ensures View() == Sweep(old(View()), store.heartbeats, threshold, now, at)
    {
      hide OpenStale, CloseFresh, StaleAmong, HostsOrdered, NtfyClient.View, Unix;
      var cutoff := now - threshold;
      var staleAgents := store.GetStaleAgents(cutoff);
      OpenIncidents(staleAgents, now, at);
      ResolveRecovered(store.heartbeats, cutoff, now, at);
    }
  }

  // ---------------------------------------------------------------- invariants of the core

  /** The table is well formed, a name is remembered by the alerter iff it has an open incident,
      and its messages strictly alternate. */
  ghost predicate Announced(c: Core) {
    && c.alerter.muted == {}
    && forall m :: (m in c.alerter.lastDown <==> IsOpen(c.incidents, m))
                   && StrictlyAlternates(Stream(c.alerter.sent, m), IsOpen(c.incidents, m))
  }

  lemma StrictlyAlternatesStep(stream: seq<bool>, down: bool)
    ensures StrictlyAlternates(stream, down) ==> StrictlyAlternates(stream + [!down], !down)
  {
  }

  lemma OpenedKeeps(c: Core, clock: int, m: string, cause: string, now: int, at: int)
    requires Disjoint(c.incidents, clock) && clock <= Unix(now) && !IsOpen(c.incidents, m)
    ensures Disjoint(Opened(c, m, cause, now, at).incidents, Unix(now))
    ensures forall x :: IsOpen(Opened(c, m, cause, now, at).incidents, x) <==> IsOpen(c.incidents, x) || x == m
    ensures Announced(c) ==> Announced(Opened(c, m, cause, now, at))
                             && Opened(c, m, cause, now, at).alerter.sent == c.alerter.sent + [Message(m, true, at)]
  {
    hide IsOpen, Disjoint, Created, Stream, StrictlyAlternates;
    StrictlyAlternatesStep(Stream(c.alerter.sent, m), false);
    CreateKeeps(c.incidents, clock, m, Unix(now), cause);
    forall x { StreamStep(c.alerter.sent, Message(m, true, at), x); }
  }

  lemma ClosedKeeps(c: Core, clock: int, m: string, now: int, at: int)
    requires Disjoint(c.incidents, clock) && clock <= Unix(now) && IsOpen(c.incidents, m)
    ensures Disjoint(ClosedUp(c, m, now, at).incidents, Unix(now))
    ensures forall x :: IsOpen(ClosedUp(c, m, now, at).incidents, x) <==> IsOpen(c.incidents, x) && x != m
    ensures Announced(c) ==> Announced(ClosedUp(c, m, now, at))
                             && ClosedUp(c, m, now, at).alerter.sent == c.alerter.sent + [Message(m, false, at)]
  {
    hide IsOpen, Disjoint, Resolved, Stream, OpenIndex, StrictlyAlternates;
    StrictlyAlternatesStep(Stream(c.alerter.sent, m), true);
    ResolveKeeps(c.incidents, clock, m, Unix(now));
    forall x { StreamStep(c.alerter.sent, Message(m, false, at), x); }
  }

  lemma DisjointLater(table: seq<Incident>, clock: int, later: int)
    requires Disjoint(table, clock) && clock <= later
    ensures Disjoint(table, later)
  {
  }

  /** The hosts of a list of heartbeats. */
  ghost predicate Hosts(beats: seq<Heartbeat>, name: string) {
    exists b :: b in beats && name == AgentName(b.host)
  }

  lemma {:induction false} OpenStaleKeeps(c: Core, clock: int, stale: seq<Heartbeat>, now: int, at: int)
    requires Disjoint(c.incidents, clock) && clock <= Unix(now)
    ensures var d := OpenStale(c, stale, now, at);
            && Disjoint(d.incidents, Unix(now))
            && (forall x :: IsOpen(d.incidents, x) <==> IsOpen(c.incidents, x) || Hosts(stale, x))
            && (Announced(c) ==> Announced(d))
  {
    hide Disjoint, IsOpen, Announced, Opened;
    if stale == [] {
      DisjointLater(c.incidents, clock, Unix(now));
    } else {
      var n := |stale| - 1;
      OpenStaleKeeps(c, clock, stale[..n], now, at);
      var d, m := OpenStale(c, stale[..n], now, at), AgentName(stale[n].host);
      assert forall x :: Hosts(stale, x) <==> Hosts(stale[..n], x) || x == m by {
        assert stale == stale[..n] + [stale[n]];
      }
      if !IsOpen(d.incidents, m) {
        OpenedKeeps(d, Unix(now), m, Cause(stale[n].host), now, at);
      }
    }
  }

  ghost predicate FreshHosts(beats: seq<Heartbeat>, threshold: int, name: string) {
    exists b :: b in beats && Fresh(b, threshold) && name == AgentName(b.host)
  }

  lemma {:induction false} CloseFreshKeeps(c: Core, clock: int, beats: seq<Heartbeat>, threshold: int, now: int,
                                           at: int)
    requires Disjoint(c.incidents, clock) && clock <= Unix(now)
    ensures var d := CloseFresh(c, beats, threshold, now, at);
            && Disjoint(d.incidents, Unix(now))
            && (forall x :: IsOpen(d.incidents, x) <==> IsOpen(c.incidents, x) && !FreshHosts(beats, threshold, x))
            && (Announced(c) ==> Announced(d))
  {
    hide Disjoint, IsOpen, Announced, ClosedUp;
    if beats == [] {
      DisjointLater(c.incidents, clock, Unix(now));
    } else {
      var n := |beats| - 1;
      CloseFreshKeeps(c, clock, beats[..n], threshold, now, at);
      var d, m := CloseFresh(c, beats[..n], threshold, now, at), AgentName(beats[n].host);
      assert forall x :: FreshHosts(beats, threshold, x) <==>
                         FreshHosts(beats[..n], threshold, x) || (Fresh(beats[n], threshold) && x == m) by {
        assert beats == beats[..n] + [beats[n]];
      }
      if Fresh(beats[n], threshold) && IsOpen(d.incidents, m) {
        ClosedKeeps(d, Unix(now), m, now, at);
      }
    }
  }

  lemma HostsAreAgents(beats: seq<Heartbeat>, threshold: int)
    ensures forall x | Hosts(beats, x) || FreshHosts(beats, threshold, x) :: IsAgentName(x)
  {
    forall x | Hosts(beats, x) || FreshHosts(beats, threshold, x) ensures IsAgentName(x) {
      var b :| b in beats && x == AgentName(b.host);
      AgentNames(b.host, b.host);
    }
  }

  /** A pass over any heartbeats keeps every name's incidents disjoint, so no agent ever has two
      open ones, and touches agent names only. */
  lemma SweepKeeps(c: Core, clock: int, beats: seq<Heartbeat>, window: int, now: int, at: int)
    requires Disjoint(c.incidents, clock) && clock <= Unix(now)
    ensures var d := Sweep(c, beats, window, now, at);
            && Disjoint(d.incidents, Unix(now))
            && (Announced(c) ==> Announced(d))
            && (forall x :: IsOpen(d.incidents, x) <==>
                  (IsOpen(c.incidents, x) || Hosts(StaleAmong(beats, now - window), x))
                  && !FreshHosts(beats, now - window, x))
            && forall x | !IsAgentName(x) :: IsOpen(d.incidents, x) <==> IsOpen(c.incidents, x)
  {
    hide Disjoint, IsOpen, Announced, Hosts, FreshHosts, IsAgentName, StaleAmong, OpenStale, CloseFresh;
    OpenStaleKeeps(c, clock, StaleAmong(beats, now - window), now, at);
    CloseFreshKeeps(OpenStale(c, StaleAmong(beats, now - window), now, at), Unix(now), beats, now - window, now, at);
    HostsAreAgents(StaleAmong(beats, now - window), now - window);
    HostsAreAgents(beats, now - window);
  }

  /** After a pass, an agent last seen before the whole second of the threshold has an open
      incident, one seen at or after the threshold has none, and one seen in the boundary second
      but before the threshold is left as it was. */
  lemma SweepSettles(c: Core, clock: int, beats: seq<Heartbeat>, window: int, now: int, at: int, b: Heartbeat)
    requires Disjoint(c.incidents, clock) && clock <= Unix(now)
    requires HostsOrdered(beats) && b in beats
    ensures var d, m, threshold := Sweep(c, beats, window, now, at), AgentName(b.host), now - window;
            && |OpenSet(d.incidents, m)| ==
               if b.lastSeen < Unix(threshold) then 1
               else if b.lastSeen * SECOND >= threshold then 0
               else |OpenSet(c.incidents, m)|
  {
    hide Disjoint, IsOpen, Announced, OpenSet, Sweep;
    var d, m, threshold := Sweep(c, beats, window, now, at), AgentName(b.host), now - window;
    SweepKeeps(c, clock, beats, window, now, at);
    OneOpen(d.incidents, Unix(now), m);
    OneOpen(c.incidents, clock, m);
    StaleAmongIff(beats, threshold);
    HostIsUnique(beats, b);
    assert Hosts(StaleAmong(beats, threshold), m) <==> b.lastSeen < Unix(threshold);
    assert FreshHosts(beats, threshold, m) <==> Fresh(b, threshold);
  }

  lemma HostIsUnique(beats: seq<Heartbeat>, b: Heartbeat)
    requires HostsOrdered(beats) && b in beats
    ensures forall x :: x in beats && AgentName(x.host) == AgentName(b.host) ==> x == b
  {
    forall x | x in beats && AgentName(x.host) == AgentName(b.host) ensures x == b {
      AgentNames(x.host, b.host);
      var i: nat :| i < |beats| && beats[i] == x;
      var j: nat :| j < |beats| && beats[j] == b;
      HostsUnique(beats, i, j);
    }
  }

  // ---------------------------------------------------------------- the rows of a pass

  /** Row `i` is the incident a pass at `now` opens for the agent. */
  ghost predicate OpenedFor(x: Incident, i: nat, b: Heartbeat, now: int) {
    x == Incident(i + 1, "agent:" + b.host, Unix(now), None, "no metrics from " + b.host)
  }

  ghost predicate OpenedRow(before: seq<Incident>, x: Incident, i: nat, stale: seq<Heartbeat>, now: int) {
    exists b :: b in stale && !IsOpen(before, "agent:" + b.host) && OpenedFor(x, i, b, now)
  }

  /** Beyond the rows of `before`, `after` has incidents opened for agents among `stale` that had none. */
  ghost predicate OpenedRows(before: seq<Incident>, after: seq<Incident>, stale: seq<Heartbeat>, now: int) {
    && |before| <= |after| && after[..|before|] == before
    && forall i | |before| <= i < |after| :: OpenedRow(before, after[i], i, stale, now)
  }

  lemma OpenedAmongMore(before: seq<Incident>, x: Incident, i: nat, stale: seq<Heartbeat>, b: Heartbeat, now: int)
    requires OpenedRow(before, x, i, stale, now) || (!IsOpen(before, "agent:" + b.host) && OpenedFor(x, i, b, now))
    ensures OpenedRow(before, x, i, stale + [b], now)
  {
    hide IsOpen, OpenedFor;
    assert forall y :: y in stale + [b] <==> y in stale || y == b;
  }

  lemma OpenedRowsStep(before: seq<Incident>, mid: seq<Incident>, stale: seq<Heartbeat>, b: Heartbeat, now: int)
    requires OpenedRows(before, mid, stale, now)
    ensures OpenedRows(before, mid, stale + [b], now)
    ensures !IsOpen(before, AgentName(b.host)) ==>
              OpenedRows(before, Created(mid, AgentName(b.host), Unix(now), Cause(b.host)), stale + [b], now)
  {
    hide IsOpen, Unix, OpenedRow;
    var after := Created(mid, AgentName(b.host), Unix(now), Cause(b.host));
    forall i | |before| <= i < |mid| ensures OpenedRow(before, mid[i], i, stale + [b], now) && after[i] == mid[i] {
      OpenedAmongMore(before, mid[i], i, stale, b, now);
    }
    if !IsOpen(before, AgentName(b.host)) {
      OpenedAmongMore(before, after[|mid|], |mid|, stale, b, now);
    }
    assert after[..|before|] == mid[..|before|];
  }

  lemma {:induction false} OpenStaleRows(c: Core, clock: int, stale: seq<Heartbeat>, now: int, at: int)
    requires Disjoint(c.incidents, clock) && clock <= Unix(now)
    ensures OpenedRows(c.incidents, OpenStale(c, stale, now, at).incidents, stale, now)
  {
    hide IsOpen, OpenedRows, Disjoint, Created, AgentName, Cause;
    if stale == [] {
      NothingOpened(c.incidents, now);
    } else {
      var n := |stale| - 1;
      OpenStaleRows(c, clock, stale[..n], now, at);
      OpenStaleKeeps(c, clock, stale[..n], now, at);
      assert stale == stale[..n] + [stale[n]];
      OpenedRowsStep(c.incidents, OpenStale(c, stale[..n], now, at).incidents, stale[..n], stale[n], now);
    }
  }

  lemma NothingOpened(table: seq<Incident>, now: int)
    ensures OpenedRows(table, table, [], now)
  {
  }

  /** The row is resolved at `now` if it was open and its agent is among the fresh ones, else as it was. */
  ghost predicate ClosedRows(before: seq<Incident>, after: seq<Incident>, beats: seq<Heartbeat>, threshold: int,
                             now: int) {
    && |after| == |before|
    && forall i | 0 <= i < |before| ::
         after[i] ==
         if before[i].resolvedAt == None && FreshHosts(beats, threshold, before[i].monitor)
         then before[i].(resolvedAt := Some(Unix(now))) else before[i]
  }

  lemma ClosedRowsSkip(before: seq<Incident>, after: seq<Incident>, beats: seq<Heartbeat>, b: Heartbeat, threshold: int,
                       now: int)
    requires ClosedRows(before, after, beats, threshold, now)
    requires Fresh(b, threshold) ==> !IsOpen(after, AgentName(b.host))
    ensures ClosedRows(before, after, beats + [b], threshold, now)
  {
    hide AgentName, Fresh;
    forall x ensures FreshHosts(beats + [b], threshold, x) <==>
                     FreshHosts(beats, threshold, x) || (Fresh(b, threshold) && x == AgentName(b.host))
    {
      MoreFresh(beats, b, threshold, x);
    }
    forall i | 0 <= i < |before| && before[i].resolvedAt == None && Fresh(b, threshold)
               && before[i].monitor == AgentName(b.host)
      ensures FreshHosts(beats, threshold, before[i].monitor)
    {
      assert !after[i].IsOpenFor(AgentName(b.host));
    }
  }

  lemma MoreFresh(beats: seq<Heartbeat>, b: Heartbeat, threshold: int, x: string)
    ensures FreshHosts(beats + [b], threshold, x) <==>
            FreshHosts(beats, threshold, x) || (Fresh(b, threshold) && x == AgentName(b.host))
  {
    hide Fresh, AgentName;
    assert forall y :: y in beats + [b] <==> y in beats || y == b;
  }

  lemma ClosedRowsStep(before: seq<Incident>, after: seq<Incident>, clock: int, beats: seq<Heartbeat>, b: Heartbeat,
                       threshold: int, now: int)
    requires ClosedRows(before, after, beats, threshold, now) && Disjoint(after, clock)
    requires Fresh(b, threshold) && IsOpen(after, AgentName(b.host))
    ensures var i := OpenIndex(after, AgentName(b.host));
            ClosedRows(before, Resolved(after, after[i].id, Unix(now)), beats + [b], threshold, now)
  {
    hide AgentName, Fresh, Unix;
    var name := AgentName(b.host);
    var k := OpenIndex(after, name);
    forall x ensures FreshHosts(beats + [b], threshold, x) <==> FreshHosts(beats, threshold, x) || x == name {
      MoreFresh(beats, b, threshold, x);
    }
    assert forall i | 0 <= i < |after| && i != k :: !after[i].IsOpenFor(name);
    assert Resolved(after, after[k].id, Unix(now)) == after[k := after[k].(resolvedAt := Some(Unix(now)))];
  }

  lemma {:induction false} CloseFreshRows(c: Core, clock: int, beats: seq<Heartbeat>, threshold: int, now: int, at: int)
    requires Disjoint(c.incidents, clock) && clock <= Unix(now)
    ensures ClosedRows(c.incidents, CloseFresh(c, beats, threshold, now, at).incidents, beats, threshold, now)
  {
    hide IsOpen, ClosedRows, Disjoint, Resolved, AgentName, Fresh;
    if beats == [] {
      NothingClosed(c.incidents, threshold, now);
    } else {
      var n := |beats| - 1;
      var d := CloseFresh(c, beats[..n], threshold, now, at);
      CloseFreshRows(c, clock, beats[..n], threshold, now, at);
      CloseFreshKeeps(c, clock, beats[..n], threshold, now, at);
      assert beats == beats[..n] + [beats[n]];
      if Fresh(beats[n], threshold) && IsOpen(d.incidents, AgentName(beats[n].host)) {
        ClosedRowsStep(c.incidents, d.incidents, Unix(now), beats[..n], beats[n], threshold, now);
      } else {
        ClosedRowsSkip(c.incidents, d.incidents, beats[..n], beats[n], threshold, now);
      }
    }
  }

  lemma NothingClosed(table: seq<Incident>, threshold: int, now: int)
    ensures ClosedRows(table, table, [], threshold, now)
  {
  }

  /** An agent of that name was last seen at or after the threshold. */
  ghost predicate SeenSince(beats: seq<Heartbeat>, threshold: int, name: string) {
    exists b :: b in beats && name == "agent:" + b.host && b.lastSeen * 1_000_000_000 >= threshold
  }

  lemma SeenIsFresh(beats: seq<Heartbeat>, threshold: int)
    ensures forall name :: FreshHosts(beats, threshold, name) <==> SeenSince(beats, threshold, name)
  {
  }

  lemma StaleNotSeen(beats: seq<Heartbeat>, threshold: int, b: Heartbeat)
    requires HostsOrdered(beats) && b in beats && b.lastSeen < Unix(threshold)
    ensures !SeenSince(beats, threshold, "agent:" + b.host)
  {
    hide Unix, HostsOrdered;
    HostIsUnique(beats, b);
  }

  /** The row is the incident opened for an agent last seen before the threshold's second that had none. */
  ghost predicate OpenedForStale(before: seq<Incident>, x: Incident, i: nat, beats: seq<Heartbeat>, threshold: int,
                                 now: int) {
    exists b :: b in beats && b.lastSeen < Unix(threshold) && !IsOpen(before, "agent:" + b.host)
                && OpenedFor(x, i, b, now)
  }

  /** Row by row, what a pass does to the table: open incidents of agents seen at or after the threshold are
      resolved; every new row is an open incident of a stale agent that had none, under its name, with its cause,
      from this second on; and nothing else changes. */
  lemma SweepRows(c: Core, clock: int, beats: seq<Heartbeat>, window: int, now: int, at: int)
    requires Disjoint(c.incidents, clock) && clock <= Unix(now) && HostsOrdered(beats)
    ensures var before, after := c.incidents, Sweep(c, beats, window, now, at).incidents;
            && |before| <= |after|
            && (forall i | 0 <= i < |before| ::
                  after[i] ==
                  if before[i].resolvedAt == None && SeenSince(beats, now - window, before[i].monitor)
                  then before[i].(resolvedAt := Some(Unix(now))) else before[i])
            && forall i | |before| <= i < |after| ::
                 OpenedForStale(before, after[i], i, beats, now - window, now)
  {
    hide IsOpen, Disjoint, OpenStale, CloseFresh, StaleAmong, AgentName, Fresh, Unix, HostsOrdered, SeenSince,
         FreshHosts;
    var stale := StaleAmong(beats, now - window);
    var before, mid := c.incidents, OpenStale(c, stale, now, at);
    var after := CloseFresh(mid, beats, now - window, now, at).incidents;
    OpenStaleRows(c, clock, stale, now, at);
    OpenStaleKeeps(c, clock, stale, now, at);
    CloseFreshRows(mid, Unix(now), beats, now - window, now, at);
    StaleAmongIff(beats, now - window);
    SeenIsFresh(beats, now - window);
    forall i | |before| <= i < |after|
      ensures OpenedForStale(before, after[i], i, beats, now - window, now)
    {
      assert OpenedRow(before, mid.incidents[i], i, stale, now);
      var b :| b in stale && !IsOpen(before, "agent:" + b.host) && OpenedFor(mid.incidents[i], i, b, now);
      StaleNotSeen(beats, now - window, b);
      assert after[i] == mid.incidents[i];
    }
    assert forall i | 0 <= i < |before| :: mid.incidents[..|before|][i] == mid.incidents[i];
  }
}
