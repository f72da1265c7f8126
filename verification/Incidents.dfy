/** The incident table shared by the check pipeline and the agent staleness checker, and the
    alerter they both drive. */
module Incidents {
  import opened Monitors
  import opened Options
  import opened Tables

  datatype Incident = Incident(id: int, monitor: string, startedAt: int, resolvedAt: Option<int>, cause: string) {
    predicate IsOpenFor(m: string) { monitor == m && resolvedAt.None? }
  }

  // ---------------------------------------------------------------- queries on the table

  /** The position of the open incident of a monitor with the latest start, or the table's length. */
  function OpenIndex(table: seq<Incident>, m: string): (i: nat)
    ensures i <= |table|
    ensures i < |table| ==> table[i].IsOpenFor(m)
    ensures i == |table| ==> forall j | 0 <= j < |table| :: !table[j].IsOpenFor(m)
    ensures i < |table| ==> forall j | 0 <= j < |table| && table[j].IsOpenFor(m) ::
            table[j].startedAt <= table[i].startedAt
  {
    if table == [] then 0
    else
      var n := |table| - 1;
      var i := OpenIndex(table[..n], m);
      if i < n && !(table[n].IsOpenFor(m) && table[n].startedAt > table[i].startedAt) then i
      else if table[n].IsOpenFor(m) then n
      else n + 1
  }

  predicate IsOpen(table: seq<Incident>, m: string) {
    OpenIndex(table, m) < |table|
  }

  function Created(table: seq<Incident>, m: string, at: int, cause: string): seq<Incident> {
    table + [Incident(|table| + 1, m, at, None, cause)]
  }

  /** `UPDATE incidents SET resolved_at = ? WHERE id = ?`. */
  function Resolved(table: seq<Incident>, id: int, at: int): seq<Incident> {
    seq(|table|, i requires 0 <= i < |table| =>
      if table[i].id == id then table[i].(resolvedAt := Some(at)) else table[i])
  }

  // ---------------------------------------------------------------- the invariant of the table

  /** Ids number the rows; intervals lie in the past; and the incidents of one monitor are disjoint
      intervals in order, so that only the last can be open. */
  ghost predicate Disjoint(table: seq<Incident>, clock: int) {
    && (forall i | 0 <= i < |table| :: table[i].id == i + 1 && table[i].startedAt <= clock)
    && (forall i | 0 <= i < |table| && table[i].resolvedAt.Some? ::
          table[i].startedAt <= table[i].resolvedAt.value <= clock)
    && (forall i, j | 0 <= i < j < |table| && table[i].monitor == table[j].monitor ::
          table[i].resolvedAt.Some? && table[i].resolvedAt.value <= table[j].startedAt)
  }

  /** The open incidents of a monitor. */
  function OpenSet(table: seq<Incident>, m: string): set<int> {
    set i | 0 <= i < |table| && table[i].IsOpenFor(m)
  }

  /** In a disjoint table a monitor has one open incident or none, and the query finds it. */
  lemma OneOpen(table: seq<Incident>, clock: int, m: string)
    requires Disjoint(table, clock)
    ensures |OpenSet(table, m)| == if IsOpen(table, m) then 1 else 0
  {
    var i := OpenIndex(table, m);
    if i < |table| {
      assert OpenSet(table, m) == {i};
    } else {
      assert OpenSet(table, m) == {};
    }
  }

  lemma CreateKeeps(table: seq<Incident>, clock: int, m: string, at: int, cause: string)
    requires Disjoint(table, clock) && clock <= at && !IsOpen(table, m)
    ensures Disjoint(Created(table, m, at, cause), at)
    ensures forall x :: IsOpen(Created(table, m, at, cause), x) <==> IsOpen(table, x) || x == m
  {
    var t := Created(table, m, at, cause);
    forall x ensures IsOpen(t, x) <==> IsOpen(table, x) || x == m {
      assert forall j | 0 <= j < |table| :: t[j] == table[j];
      var i := OpenIndex(table, x);
      if i < |table| { assert t[i].IsOpenFor(x); }
      if x == m { assert t[|table|].IsOpenFor(x); }
    }
  }

  lemma ResolveKeeps(table: seq<Incident>, clock: int, m: string, at: int)
    requires Disjoint(table, clock) && clock <= at && IsOpen(table, m)
    ensures var t := Resolved(table, table[OpenIndex(table, m)].id, at);
            Disjoint(t, at) && forall x :: IsOpen(t, x) <==> IsOpen(table, x) && x != m
  {
    var k := OpenIndex(table, m);
    var t := Resolved(table, table[k].id, at);
    assert t == table[k := table[k].(resolvedAt := Some(at))];
    forall x ensures IsOpen(t, x) <==> IsOpen(table, x) && x != m {
      var i := OpenIndex(table, x);
      if i < |table| && x != m { assert t[i].IsOpenFor(x); }
      var j := OpenIndex(t, x);
      if j < |t| {
        assert table[j].IsOpenFor(x);
        assert x != m;
      }
    }
  }

  // ---------------------------------------------------------------- heartbeats

  /** Instants are nanoseconds; the tables hold Unix seconds. */
  const SECOND := 1_000_000_000

  /** The whole second an instant falls into. */
  function Unix(instant: int): (s: int)
    ensures s * 1_000_000_000 <= instant < (s + 1) * 1_000_000_000
  {
    instant / SECOND
  }

  datatype Heartbeat = Heartbeat(host: string, lastSeen: int)

  /** SQLite's order of texts. */
  predicate TextBefore(a: string, b: string) {
    b != [] && (a == [] || a[0] < b[0] || (a[0] == b[0] && TextBefore(a[1..], b[1..])))
  }

  lemma {:induction false} TextsOrdered(a: string, b: string)
    ensures a == b || TextBefore(a, b) || TextBefore(b, a)
    ensures !(TextBefore(a, b) && (a == b || TextBefore(b, a)))
  {
    if a != [] && b != [] && a[0] == b[0] {
      TextsOrdered(a[1..], b[1..]);
      assert a == [a[0]] + a[1..] && b == [b[0]] + b[1..];
    }
  }

  /** The texts share their first `k` characters; then one ends or has the smaller character. */
  ghost predicate DiffersAt(a: string, b: string, k: nat) {
    k <= |a| && k < |b| && a[..k] == b[..k] && (k == |a| || a[k] < b[k])
  }

  lemma {:induction false} TextBeforeIff(a: string, b: string)
    ensures TextBefore(a, b) <==> exists k: nat :: DiffersAt(a, b, k)
  {
    if a != [] && b != [] && a[0] == b[0] {
      TextBeforeIff(a[1..], b[1..]);
      if TextBefore(a, b) {
        var k: nat :| DiffersAt(a[1..], b[1..], k);
        assert a[..k + 1] == [a[0]] + a[1..][..k] && b[..k + 1] == [b[0]] + b[1..][..k];
        assert DiffersAt(a, b, k + 1);
      }
      forall k: nat | DiffersAt(a, b, k) ensures TextBefore(a, b) {
        assert a[1..][..k - 1] == a[..k][1..] && b[1..][..k - 1] == b[..k][1..];
        assert DiffersAt(a[1..], b[1..], k - 1);
      }
    } else if TextBefore(a, b) {
      assert DiffersAt(a, b, 0);
    } else {
      forall k: nat ensures !DiffersAt(a, b, k) {
        if k > 0 && k <= |a| && k < |b| { assert a[..k][0] == a[0] && b[..k][0] == b[0]; }
      }
    }
  }

  lemma {:induction false} TextsTransitive(a: string, b: string, c: string)
    requires TextBefore(a, b) && TextBefore(b, c)
    ensures TextBefore(a, c)
  {
    if a != [] && a[0] == b[0] == c[0] { TextsTransitive(a[1..], b[1..], c[1..]); }
  }

  /** `host` is the primary key and the order of every query, so the table is kept in that order. */
  ghost predicate HostsOrdered(beats: seq<Heartbeat>) {
    forall i, j | 0 <= i < j < |beats| :: TextBefore(beats[i].host, beats[j].host)
  }

  lemma HostsUnique(beats: seq<Heartbeat>, i: nat, j: nat)
    requires HostsOrdered(beats) && i < |beats| && j < |beats| && beats[i].host == beats[j].host
    ensures i == j
  {
    TextsOrdered(beats[i].host, beats[j].host);
  }

  function Upserted(beats: seq<Heartbeat>, host: string, lastSeen: int): seq<Heartbeat> {
    if beats == [] then [Heartbeat(host, lastSeen)]
    else
      var n := |beats| - 1;
      if beats[n].host == host then beats[..n] + [Heartbeat(host, lastSeen)]
      else if TextBefore(beats[n].host, host) then beats + [Heartbeat(host, lastSeen)]
      else Upserted(beats[..n], host, lastSeen) + [beats[n]]
  }

  lemma {:induction false} UpsertPlaces(beats: seq<Heartbeat>, host: string, lastSeen: int, i: nat)
    requires i <= |beats| && forall j | i <= j < |beats| :: beats[j].host != host && !TextBefore(beats[j].host, host)
    ensures Upserted(beats, host, lastSeen) == Upserted(beats[..i], host, lastSeen) + beats[i..]
  {
    if i < |beats| {
      var n := |beats| - 1;
      UpsertPlaces(beats[..n], host, lastSeen, i);
      assert beats[..n][..i] == beats[..i] && beats[i..] == beats[..n][i..] + [beats[n]];
    } else {
      assert beats[..i] == beats;
    }
  }

  /** The scan from the end stopped at `i`: the row goes there. */
  lemma UpsertAt(beats: seq<Heartbeat>, host: string, lastSeen: int, i: nat)
    requires i <= |beats| && forall j | i <= j < |beats| :: beats[j].host != host && !TextBefore(beats[j].host, host)
    requires i > 0 ==> beats[i - 1].host == host || TextBefore(beats[i - 1].host, host)
    ensures Upserted(beats, host, lastSeen) ==
            if i > 0 && beats[i - 1].host == host then beats[..i - 1] + [Heartbeat(host, lastSeen)] + beats[i..]
            else beats[..i] + [Heartbeat(host, lastSeen)] + beats[i..]
  {
    hide TextBefore;
    UpsertPlaces(beats, host, lastSeen, i);
    if i > 0 { assert beats[..i][..i - 1] == beats[..i - 1]; }
  }

  /** `WHERE last_seen_at < ?`, with the threshold cut to a whole second. */
  function StaleAmong(beats: seq<Heartbeat>, threshold: int): seq<Heartbeat> {
    if beats == [] then []
    else
      var n := |beats| - 1;
      if beats[n].lastSeen < Unix(threshold) then StaleAmong(beats[..n], threshold) + [beats[n]]
      else StaleAmong(beats[..n], threshold)
  }

  lemma OrderedPrefix(beats: seq<Heartbeat>)
    requires HostsOrdered(beats) && beats != []
    ensures HostsOrdered(beats[..|beats| - 1])
    ensures forall b | b in beats[..|beats| - 1] :: TextBefore(b.host, beats[|beats| - 1].host)
  {
  }

  lemma OrderedSnoc(beats: seq<Heartbeat>, b: Heartbeat)
    requires HostsOrdered(beats) && forall x | x in beats :: TextBefore(x.host, b.host)
    ensures HostsOrdered(beats + [b])
  {
    forall i | 0 <= i < |beats| ensures TextBefore(beats[i].host, b.host) {
      assert beats[i] in beats;
    }
  }

  /** One row per host: the host's row is the new one, every other row stays, and the order is kept. */
  lemma {:induction false} UpsertKeepsOrdered(beats: seq<Heartbeat>, host: string, lastSeen: int)
    requires HostsOrdered(beats)
    ensures HostsOrdered(Upserted(beats, host, lastSeen))
    ensures forall b :: b in Upserted(beats, host, lastSeen) <==>
            b == Heartbeat(host, lastSeen) || (b in beats && b.host != host)
  {
    hide HostsOrdered, TextBefore;
    if beats == [] {
      OrderedSnoc([], Heartbeat(host, lastSeen));
      assert [] + [Heartbeat(host, lastSeen)] == [Heartbeat(host, lastSeen)];
    } else {
      var n := |beats| - 1;
      var init, last := beats[..n], beats[n];
      OrderedPrefix(beats);
      assert beats == init + [last];
      forall b | b in init ensures b.host != last.host { TextsOrdered(b.host, last.host); }
      if last.host == host {
        OrderedSnoc(init, Heartbeat(host, lastSeen));
      } else if TextBefore(last.host, host) {
        AllBefore(init, last, host);
        OrderedSnoc(beats, Heartbeat(host, lastSeen));
      } else {
        UpsertKeepsOrdered(init, host, lastSeen);
        TextsOrdered(host, last.host);
        OrderedSnoc(Upserted(init, host, lastSeen), last);
      }
    }
  }

  lemma AllBefore(init: seq<Heartbeat>, last: Heartbeat, host: string)
    requires TextBefore(last.host, host) && forall b | b in init :: TextBefore(b.host, last.host)
    ensures forall b | b in init + [last] :: TextBefore(b.host, host) && b.host != host
  {
    hide TextBefore;
    forall b | b in init + [last] ensures TextBefore(b.host, host) && b.host != host {
      if b in init { TextsTransitive(b.host, last.host, host); }
      TextsOrdered(b.host, host);
    }
  }

  lemma {:induction false} StaleAmongIff(beats: seq<Heartbeat>, threshold: int)
    ensures forall b :: b in StaleAmong(beats, threshold) <==> b in beats && b.lastSeen < Unix(threshold)
    ensures HostsOrdered(beats) ==> HostsOrdered(StaleAmong(beats, threshold))
  {
    hide HostsOrdered;
    if beats == [] {
      assert StaleAmong(beats, threshold) == beats;
    } else {
      var n := |beats| - 1;
      StaleAmongIff(beats[..n], threshold);
      assert beats == beats[..n] + [beats[n]];
      if HostsOrdered(beats) {
        OrderedPrefix(beats);
        OrderedSnoc(StaleAmong(beats[..n], threshold), beats[n]);
      }
    }
  }

  // ---------------------------------------------------------------- the code

  class Store {
    var checkResults: seq<Row<string>>
    var incidents: seq<Incident>
    var heartbeats: seq<Heartbeat>

    constructor ()
      ensures checkResults == [] && incidents == [] && heartbeats == []
    {
      checkResults, incidents, heartbeats := [], [], [];
    }

    method InsertCheckResult(monitor: string, timestamp: int, status: string)
      modifies this`checkResults
      ensures checkResults == old(checkResults) + [Row(monitor, timestamp, status)]
    {
      checkResults := checkResults + [Row(monitor, timestamp, status)];
    }

    method UpsertHeartbeat(host: string, ts: int)
      modifies this`heartbeats
      ensures heartbeats == Upserted(old(heartbeats), host, Unix(ts))
      ensures HostsOrdered(old(heartbeats)) ==>
                && HostsOrdered(heartbeats)
                && forall b :: b in heartbeats <==>
                   b == Heartbeat(host, Unix(ts)) || (b in old(heartbeats) && b.host != host)
    {
      hide TextBefore, HostsOrdered, Upserted, Unix;
      var i: nat := |heartbeats|;
      while i > 0 && heartbeats[i - 1].host != host && !TextBefore(heartbeats[i - 1].host, host)
        invariant i <= |heartbeats| && heartbeats == old(heartbeats)
        invariant forall j | i <= j < |heartbeats| ::
                  heartbeats[j].host != host && !TextBefore(heartbeats[j].host, host)
      {
        i := i - 1;
      }
      UpsertAt(heartbeats, host, Unix(ts), i);
      if HostsOrdered(heartbeats) { UpsertKeepsOrdered(heartbeats, host, Unix(ts)); }
      if i > 0 && heartbeats[i - 1].host == host {
        heartbeats := heartbeats[..i - 1] + [Heartbeat(host, Unix(ts))] + heartbeats[i..];
      } else {
        heartbeats := heartbeats[..i] + [Heartbeat(host, Unix(ts))] + heartbeats[i..];
      }
    }

    method GetStaleAgents(threshold: int) returns (stale: seq<Heartbeat>)
      ensures stale == StaleAmong(heartbeats, threshold)
      ensures forall b :: b in stale <==> b in heartbeats && b.lastSeen < Unix(threshold)
      ensures HostsOrdered(heartbeats) ==> HostsOrdered(stale)
    {
      hide HostsOrdered;
      stale := [];
      for i := 0 to |heartbeats|
        invariant stale == StaleAmong(heartbeats[..i], threshold)
      {
        assert heartbeats[..i + 1][..i] == heartbeats[..i];
        if heartbeats[i].lastSeen < Unix(threshold) {
          stale := stale + [heartbeats[i]];
        }
      }
      assert heartbeats[..|heartbeats|] == heartbeats;
      StaleAmongIff(heartbeats, threshold);
    }

    method CreateIncident(monitor: string, startedAt: int, cause: string) returns (id: int)
      modifies this`incidents
      ensures incidents == old(incidents) + [Incident(id, monitor, startedAt, None, cause)] && id == |incidents|
      ensures incidents == Created(old(incidents), monitor, startedAt, cause)
    {
      incidents := incidents + [Incident(|incidents| + 1, monitor, startedAt, None, cause)];
      return |incidents|;
    }

    /** `UPDATE incidents SET resolved_at = ? WHERE id = ?`, row by row. */
    method ResolveIncident(id: int, resolvedAt: int)
      modifies this`incidents
      ensures |incidents| == |old(incidents)|
      ensures forall i | 0 <= i < |incidents| ::
                incidents[i] ==
                if old(incidents)[i].id == id then old(incidents)[i].(resolvedAt := Some(resolvedAt))
                else old(incidents)[i]
      ensures incidents == Resolved(old(incidents), id, resolvedAt)
    {
      for i := 0 to |incidents|
        invariant |incidents| == |old(incidents)|
        invariant forall j | 0 <= j < i :: incidents[j] == Resolved(old(incidents), id, resolvedAt)[j]
        invariant forall j | i <= j < |incidents| :: incidents[j] == old(incidents)[j]
      {
        if incidents[i].id == id {
          incidents := incidents[i := incidents[i].(resolvedAt := Some(resolvedAt))];
        }
      }
    }

    /** The monitor's open incident with the latest start. */
    method GetOpenIncident(monitor: string) returns (inc: Option<Incident>)
      ensures inc.Some? ==> inc.value in incidents && inc.value.IsOpenFor(monitor)
      ensures inc.Some? ==> forall x | x in incidents && x.IsOpenFor(monitor) :: x.startedAt <= inc.value.startedAt
      ensures inc.None? ==> forall x | x in incidents :: !x.IsOpenFor(monitor)
      ensures inc == if IsOpen(incidents, monitor) then Some(incidents[OpenIndex(incidents, monitor)]) else None
    {
      var best := |incidents|;
      for i := 0 to |incidents|
        invariant best == var k := OpenIndex(incidents[..i], monitor); if k < i then k else |incidents|
      {
        assert incidents[..i + 1][..i] == incidents[..i];
        if incidents[i].IsOpenFor(monitor)
           && (best == |incidents| || incidents[i].startedAt > incidents[best].startedAt) {
          best := i;
        }
      }
      assert incidents[..|incidents|] == incidents;
      inc := if best < |incidents| then Some(incidents[best]) else None;
    }
  }

  /** What a transition does to the table. */
  function Handled(table: seq<Incident>, m: string, t: Transition, at: int, cause: string): seq<Incident> {
    match t
    case NoTransition => table
    case ToDown => Created(table, m, at, cause)
    case ToUp => if IsOpen(table, m) then Resolved(table, table[OpenIndex(table, m)].id, at) else table
  }

  class IncidentManager {
    const store: Store

    constructor (store: Store)
      ensures this.store == store
    {
      this.store := store;
    }

    method HandleTransition(monitor: string, t: Transition, timestamp: int, cause: string)
      returns (inc: Option<Incident>)
      modifies store`incidents
      ensures store.incidents == Handled(old(store.incidents), monitor, t, timestamp, cause)
      ensures t.ToDown? ==>
                var id := |old(store.incidents)| + 1;
                && inc == Some(Incident(id, monitor, timestamp, None, cause))
                && store.incidents == old(store.incidents) + [inc.value]
      ensures t.ToUp? && IsOpen(old(store.incidents), monitor) ==>
                var i := OpenIndex(old(store.incidents), monitor);
                inc == Some(old(store.incidents)[i].(resolvedAt := Some(timestamp)))
      ensures t.ToUp? && IsOpen(old(store.incidents), monitor) ==>
                var i := OpenIndex(old(store.incidents), monitor);
                && |store.incidents| == |old(store.incidents)|
                && forall j | 0 <= j < |store.incidents| ::
                     store.incidents[j] ==
                     if old(store.incidents)[j].id == old(store.incidents)[i].id
                     then old(store.incidents)[j].(resolvedAt := Some(timestamp)) else old(store.incidents)[j]
      ensures t.NoTransition? || (t.ToUp? && !IsOpen(old(store.incidents), monitor)) ==>
                inc == None && store.incidents == old(store.incidents)
    {
      match t {
        case ToDown =>
          var id := store.CreateIncident(monitor, timestamp, cause);
          inc := Some(Incident(id, monitor, timestamp, None, cause));
        case ToUp =>
          inc := store.GetOpenIncident(monitor);
          if inc.None? {
            return;
          }
          store.ResolveIncident(inc.value.id, timestamp);
          inc := Some(inc.value.(resolvedAt := Some(timestamp)));
        case NoTransition =>
          inc := None;
      }
    }
  }
}
