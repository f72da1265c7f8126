/** The notification client: DOWN messages deduplicated within a reminder interval, recovery
    messages, and a mute set. `sent` lists the messages handed to the transport. */
module Alerts {

  datatype Message = Message(monitor: string, down: bool, at: int)

  datatype Alerter = Alerter(reminder: int, lastDown: map<string, int>, muted: set<string>, sent: seq<Message>)

  datatype Call = Down(monitor: string, at: int) | Recovery(monitor: string, at: int)
                | Mute(name: string) | Unmute(name: string) | SetMuted(names: set<string>)

  predicate Suppressed(a: Alerter, m: string, at: int) {
    m in a.muted || (m in a.lastDown && at - a.lastDown[m] < a.reminder)
  }

  function Step(a: Alerter, c: Call): Alerter {
    match c
    case Down(m, at) =>
      if Suppressed(a, m, at) then a
      else a.(lastDown := a.lastDown[m := at], sent := a.sent + [Message(m, true, at)])
    case Recovery(m, at) =>
      a.(lastDown := a.lastDown - {m}, sent := if m in a.muted then a.sent else a.sent + [Message(m, false, at)])
    case Mute(name) => a.(muted := a.muted + {name})
    case Unmute(name) => a.(muted := a.muted - {name})
    case SetMuted(names) => a.(muted := names)
  }

  const HOUR := 3600 * 1_000_000_000

  function New(reminderInterval: int): Alerter {
    Alerter(if reminderInterval == 0 then HOUR else reminderInterval, map[], {}, [])
  }

  class NtfyClient {
    const reminderInterval: int
    var lastDownAlert: map<string, int>
    var muted: set<string>
    var sent: seq<Message>

    ghost function View(): Alerter
      reads this
    {
      Alerter(reminderInterval, lastDownAlert, muted, sent)
    }

    constructor (reminderInterval: int)
      ensures View() == New(reminderInterval)
      ensures this.reminderInterval == if reminderInterval == 0 then 3_600_000_000_000 else reminderInterval
      ensures lastDownAlert == map[] && muted == {} && sent == []
    {
      this.reminderInterval := if reminderInterval == 0 then HOUR else reminderInterval;
      lastDownAlert, muted, sent := map[], {}, [];
    }

    method SetMutedNames(names: set<string>)
      modifies this
      ensures View() == Step(old(View()), SetMuted(names))
    {
      muted := names;
    }

    method MuteName(name: string)
      modifies this
      ensures View() == Step(old(View()), Mute(name))
    {
      muted := muted + {name};
    }

    method UnmuteName(name: string)
      modifies this
      ensures View() == Step(old(View()), Unmute(name))
    {
      muted := muted - {name};
    }

    method SendDown(monitor: string, now: int)
      modifies this
      ensures monitor in old(muted) ==> View() == old(View())
      ensures View() == Step(old(View()), Down(monitor, now))
    {
      if monitor in muted {
        return;
      }
      if monitor in lastDownAlert && now - lastDownAlert[monitor] < reminderInterval {
        return;
      }
      lastDownAlert := lastDownAlert[monitor := now];
      sent := sent + [Message(monitor, true, now)];
    }

    method SendRecovery(monitor: string, now: int)
      modifies this
      ensures monitor !in lastDownAlert && muted == old(muted)
      ensures sent == if monitor in old(muted) then old(sent) else old(sent) + [Message(monitor, false, now)]
      ensures View() == Step(old(View()), Recovery(monitor, now))
    {
      var isMuted := monitor in muted;
      lastDownAlert := lastDownAlert - {monitor};
      if isMuted {
        return;
      }
      sent := sent + [Message(monitor, false, now)];
    }
  }

  // ---------------------------------------------------------------- any sequence of client calls

  function Run(a: Alerter, calls: seq<Call>): Alerter {
    if calls == [] then a else Step(Run(a, calls[..|calls| - 1]), calls[|calls| - 1])
  }

  /** The times of the DOWN messages for a monitor. */
  function DownTimes(sent: seq<Message>, m: string): seq<int> {
    if sent == [] then []
    else
      var n := |sent| - 1;
      if sent[n].monitor == m && sent[n].down then DownTimes(sent[..n], m) + [sent[n].at] else DownTimes(sent[..n], m)
  }

  lemma DownTimesStep(sent: seq<Message>, x: Message, m: string)
    ensures DownTimes(sent + [x], m) ==
            if x.monitor == m && x.down then DownTimes(sent, m) + [x.at] else DownTimes(sent, m)
  {
    assert (sent + [x])[..|sent|] == sent;
  }

  ghost predicate NoRecovery(calls: seq<Call>, m: string) {
    forall i | 0 <= i < |calls| && calls[i].Recovery? :: calls[i].monitor != m
  }

  /** From `a` to `b` the DOWN messages for `m` were sent at `times`, spaced by the reminder
      interval, counting the message `a` remembers. */
  ghost predicate Spaced(a: Alerter, b: Alerter, times: seq<int>, m: string) {
    && b.reminder == a.reminder
    && DownTimes(b.sent, m) == DownTimes(a.sent, m) + times
    && (forall i | 0 <= i < |times| - 1 :: times[i + 1] - times[i] >= a.reminder)
    && (times != [] && m in a.lastDown ==> times[0] - a.lastDown[m] >= a.reminder)
    && (times != [] ==> m in b.lastDown && b.lastDown[m] == times[|times| - 1])
    && (times == [] ==> (m in b.lastDown <==> m in a.lastDown) && (m in a.lastDown ==> b.lastDown[m] == a.lastDown[m]))
  }

  lemma SpacedStep(a: Alerter, b: Alerter, times: seq<int>, c: Call, m: string)
    requires Spaced(a, b, times, m) && (c.Recovery? ==> c.monitor != m)
    ensures Spaced(a, Step(b, c),
                   if c.Down? && c.monitor == m && !Suppressed(b, m, c.at) then times + [c.at] else times, m)
  {
    hide DownTimes;
    if c.Down? { DownTimesStep(b.sent, Message(c.monitor, true, c.at), m); }
    if c.Recovery? { DownTimesStep(b.sent, Message(c.monitor, false, c.at), m); }
  }

  /** Reminders are spaced. Whatever the clients do, in particular under any muting and unmuting, as
      long as no recovery is reported for a monitor its DOWN messages are at least the reminder
      interval apart, counting the one the segment starts with. */
  lemma {:induction false} RemindersAreSpaced(a: Alerter, calls: seq<Call>, m: string) returns (times: seq<int>)
    requires NoRecovery(calls, m)
    ensures Spaced(a, Run(a, calls), times, m)
  {
    hide DownTimes, Step;
    if calls == [] {
      times := [];
    } else {
      var n := |calls| - 1;
      assert NoRecovery(calls[..n], m);
      var b, c := Run(a, calls[..n]), calls[n];
      times := RemindersAreSpaced(a, calls[..n], m);
      SpacedStep(a, b, times, c, m);
      if c.Down? && c.monitor == m && !Suppressed(b, m, c.at) { times := times + [c.at]; }
    }
  }

  lemma {:induction false} MessagesOnlyAdded(a: Alerter, calls: seq<Call>, m: string)
    ensures |DownTimes(Run(a, calls).sent, m)| >= |DownTimes(a.sent, m)|
    ensures Run(a, calls).reminder == a.reminder
  {
    hide DownTimes;
    if calls != [] {
      var n := |calls| - 1;
      var b, c := Run(a, calls[..n]), calls[n];
      MessagesOnlyAdded(a, calls[..n], m);
      if c.Down? { DownTimesStep(b.sent, Message(c.monitor, true, c.at), m); }
      if c.Recovery? { DownTimesStep(b.sent, Message(c.monitor, false, c.at), m); }
    }
  }

  /** Exactly when a DOWN is sent: after any calls without a recovery of the monitor, from a point where none was
      remembered, it is sent iff the monitor is not muted and the last DOWN message since, if there is one, is at
      least the reminder interval old. */
  lemma DownSentIff(a: Alerter, calls: seq<Call>, m: string, at: int)
    requires NoRecovery(calls, m) && m !in a.lastDown
    ensures var b, known := Run(a, calls), |DownTimes(a.sent, m)|;
            var times := DownTimes(b.sent, m);
            && |times| >= known
            && Step(b, Down(m, at)).sent ==
               if m !in b.muted && (|times| > known ==> at - times[|times| - 1] >= a.reminder)
               then b.sent + [Message(m, true, at)] else b.sent
  {
    hide DownTimes, Run;
    MessagesOnlyAdded(a, calls, m);
    var times := RemindersAreSpaced(a, calls, m);
  }

  predicate Mutes(c: Call, m: string) { c == Mute(m) || (c.SetMuted? && m in c.names) }

  predicate Unmutes(c: Call, m: string) { c == Unmute(m) || (c.SetMuted? && m !in c.names) }

  /** Call `i` mutes the name, and none after it unmutes it. */
  ghost predicate MutedSince(calls: seq<Call>, m: string, i: nat) {
    i < |calls| && Mutes(calls[i], m) && forall j | i < j < |calls| :: !Unmutes(calls[j], m)
  }

  /** A name is muted iff it was muted last, or at the beginning and never unmuted. */
  lemma {:induction false} MutedIff(a: Alerter, calls: seq<Call>, m: string)
    ensures m in Run(a, calls).muted <==>
            (exists i: nat :: MutedSince(calls, m, i))
            || (m in a.muted && forall j | 0 <= j < |calls| :: !Unmutes(calls[j], m))
  {
    if calls != [] {
      var n := |calls| - 1;
      MutedIff(a, calls[..n], m);
      forall i: nat | i < n ensures MutedSince(calls, m, i) <==> MutedSince(calls[..n], m, i) && !Unmutes(calls[n], m) {
        assert forall j | 0 <= j < n :: calls[..n][j] == calls[j];
      }
      assert forall j | 0 <= j < n :: calls[..n][j] == calls[j];
      MutedLast(calls, m);
    }
  }

  lemma MutedLast(calls: seq<Call>, m: string)
    requires calls != []
    ensures MutedSince(calls, m, |calls| - 1) <==> Mutes(calls[|calls| - 1], m)
    ensures !(Mutes(calls[|calls| - 1], m) && Unmutes(calls[|calls| - 1], m))
    ensures forall i: nat | MutedSince(calls, m, i) :: i < |calls|
  {
  }

  // ---------------------------------------------------------------- streams per monitor

  /** The directions of a monitor's messages: `true` for DOWN. */
  function Stream(sent: seq<Message>, m: string): seq<bool> {
    if sent == [] then []
    else
      var n := |sent| - 1;
      if sent[n].monitor == m then Stream(sent[..n], m) + [sent[n].down] else Stream(sent[..n], m)
  }

  lemma StreamStep(sent: seq<Message>, x: Message, m: string)
    ensures Stream(sent + [x], m) == if x.monitor == m then Stream(sent, m) + [x.down] else Stream(sent, m)
  {
    assert (sent + [x])[..|sent|] == sent;
  }

  /** DOWN, UP, DOWN, ... ending with DOWN iff `down`. */
  ghost predicate StrictlyAlternates(stream: seq<bool>, down: bool) {
    && (forall i | 0 <= i < |stream| :: stream[i] == (i % 2 == 0))
    && (down <==> |stream| % 2 == 1)
  }
}
