/** The WebSocket hub as a step system: the event loop, the clients' goroutines and the callers of
    `Broadcast` and `Stop` interleave; channels are bounded queues. */
module WebSocketHub {

  const CAPACITY := 256

  type Message = string

  /** One connection: its send channel, what its writer has received from it, how many messages
      had been taken when it registered, how often its channel was closed, and whether its reader
      goroutine still has its one unregister request to make. */
  datatype Conn = Conn(queue: seq<Message>, received: seq<Message>, since: nat, closes: nat, reading: bool)

  /** The event loop waits in its select, is inside the delivery loop, stands in its own send on the
      `unregister` channel, or has returned. */
  datatype Phase =
    | Idle
    | Delivering(message: Message, pending: set<int>)
    | Sending(client: int, message: Message, pending: set<int>)
    | Stopped

  /** `accepted` and `taken` are history: the messages put on the broadcast channel, and those the loop took from it.
      `panicked` records a send on, or a second close of, a closed client channel. `closing` counts the callers of
      `Stop` that found the `quit` channel open and have yet to close it, `quitCloses` the closes so far. */
  datatype Hub = Hub(phase: Phase, clients: set<int>, conns: map<int, Conn>, broadcast: seq<Message>,
                     accepted: seq<Message>, taken: seq<Message>, closing: nat, quitCloses: nat, panicked: bool)
  {
    predicate Quit() { quitCloses > 0 }
  }

  /** Who may stand in a send on the unbuffered `unregister` channel: a client's reader, or the loop itself. */
  datatype Sender = Reader(c: int) | Loop

  datatype Action =
    | Register(c: int) | Unregister(s: Sender) | Take | Deliver(c: int) | Finish | Quit
    | Publish(m: Message) | StopCheck | StopClose | Receive(c: int)

  const START := Hub(Idle, {}, map[], [], [], [], 0, 0, false)

  predicate Offers(h: Hub, s: Sender) {
    match s
    case Reader(c) => c in h.conns && h.conns[c].reading
    case Loop => h.phase.Sending?
  }

  /** The loop is the only receiver on its channels, and receives only in its select. */
  predicate Receives(h: Hub) { h.phase.Idle? }

  predicate Enabled(h: Hub, a: Action) {
    match a
    case Register(c) => Receives(h) && c !in h.conns
    case Unregister(s) => Receives(h) && Offers(h, s)
    case Take => Receives(h) && h.broadcast != []
    case Deliver(c) => h.phase.Delivering? && c in h.phase.pending && c in h.conns
    case Finish => h.phase.Delivering? && h.phase.pending == {}
    case Quit => Receives(h) && h.Quit()
    case Publish(_) => true
    case StopCheck => true
    case StopClose => h.closing > 0
    case Receive(c) => c in h.conns && h.conns[c].queue != []
  }

  function Closed(k: Conn): Conn {
    k.(closes := k.closes + 1)
  }

  /** The client named in an unregister request. */
  function Target(h: Hub, s: Sender): int {
    match s
    case Reader(c) => c
    case Loop => (match h.phase case Sending(c, _, _) => c case _ => 0)
  }

  /** The request has been received: the client goes, and its channel is closed. */
  function Removed(h: Hub, c: int): Hub {
    if c in h.clients && c in h.conns then
      h.(clients := h.clients - {c}, conns := h.conns[c := Closed(h.conns[c])],
         panicked := h.panicked || h.conns[c].closes > 0)
    else h
  }

  /** The request has been sent: a reader is done, the loop goes on delivering. */
  function Sent(h: Hub, s: Sender): Hub {
    match s
    case Reader(c) => if c in h.conns then h.(conns := h.conns[c := h.conns[c].(reading := false)]) else h
    case Loop => (match h.phase case Sending(_, m, pending) => h.(phase := Delivering(m, pending)) case _ => h)
  }

  function Step(h: Hub, a: Action): Hub
    requires Enabled(h, a)
  {
    match a
    case Register(c) =>
      h.(clients := h.clients + {c}, conns := h.conns[c := Conn([], [], |h.taken|, 0, true)])
    case Unregister(s) => Sent(Removed(h, Target(h, s)), s)
    case Take =>
      h.(phase := Delivering(h.broadcast[0], h.clients), broadcast := h.broadcast[1..],
         taken := h.taken + [h.broadcast[0]])
    case Deliver(c) =>
      var k, rest := h.conns[c], h.phase.pending - {c};
      if k.closes > 0 then h.(panicked := true)
      else if |k.queue| < CAPACITY then
        h.(phase := Delivering(h.phase.message, rest), conns := h.conns[c := k.(queue := k.queue + [h.phase.message])])
      else h.(phase := Sending(c, h.phase.message, rest))
    case Finish => h.(phase := Idle)
    case Quit =>
      h.(phase := Stopped, clients := {},
         conns := map c | c in h.conns :: if c in h.clients then Closed(h.conns[c]) else h.conns[c],
         panicked := h.panicked || exists c :: c in h.clients && c in h.conns && h.conns[c].closes > 0)
    case Publish(m) =>
      if |h.broadcast| < CAPACITY then h.(broadcast := h.broadcast + [m], accepted := h.accepted + [m]) else h
    case StopCheck => if h.Quit() then h else h.(closing := h.closing + 1)
    case StopClose => h.(closing := h.closing - 1, quitCloses := h.quitCloses + 1)
    case Receive(c) =>
      var k := h.conns[c];
      h.(conns := h.conns[c := k.(queue := k.queue[1..], received := k.received + [k.queue[0]])])
  }

  // ---------------------------------------------------------------- safety

  /** What was put on the client's channel is the run of messages taken since it registered. */
  predicate Segment(k: Conn, taken: seq<Message>) {
    var sent := k.received + k.queue;
    k.since + |sent| <= |taken| && sent == taken[k.since..k.since + |sent|]
  }

  /** A registered client has been given every message taken so far, except the one being handed
      out if its turn is still to come. */
  predicate UpToDate(h: Hub, c: int)
    requires c in h.conns
  {
    var k := h.conns[c];
    var waiting := (h.phase.Delivering? && c in h.phase.pending) || h.phase.Sending?;
    k.since + |k.received| + |k.queue| <= |h.taken|
    && (!waiting ==> k.since + |k.received| + |k.queue| == |h.taken|)
    && (h.phase.Delivering? && c in h.phase.pending ==> k.since + |k.received| + |k.queue| == |h.taken| - 1)
  }

  ghost predicate Inv(h: Hub) {
    && !h.panicked
    && h.clients <= h.conns.Keys
    && (forall c | c in h.conns :: h.conns[c].closes == (if c in h.clients then 0 else 1))
    && (forall c | c in h.conns :: |h.conns[c].queue| <= CAPACITY && Segment(h.conns[c], h.taken))
    && (forall c | c in h.clients :: UpToDate(h, c))
    && (h.phase.Delivering? ==>
          h.phase.pending <= h.clients && h.taken != [] && h.taken[|h.taken| - 1] == h.phase.message)
    && |h.broadcast| <= CAPACITY && h.accepted == h.taken + h.broadcast
  }

  lemma SegmentGrows(k: Conn, taken: seq<Message>, m: Message)
    requires Segment(k, taken)
    ensures Segment(k, taken + [m])
  {
    var sent := k.received + k.queue;
    assert (taken + [m])[k.since..k.since + |sent|] == taken[k.since..k.since + |sent|];
  }

  lemma SegmentExtends(k: Conn, taken: seq<Message>)
    requires Segment(k, taken) && k.since + |k.received| + |k.queue| == |taken| - 1
    ensures Segment(k.(queue := k.queue + [taken[|taken| - 1]]), taken)
  {
    var sent := k.received + k.queue;
    assert k.received + (k.queue + [taken[|taken| - 1]]) == sent + [taken[|taken| - 1]];
    assert taken[k.since..|taken|] == taken[k.since..|taken| - 1] + [taken[|taken| - 1]];
  }

  lemma ReceiveKeepsInv(h: Hub, c: int)
    requires Inv(h) && Enabled(h, Receive(c))
    ensures Inv(Step(h, Receive(c)))
  {
    hide Segment;
    SegmentReceived(h.conns[c], h.taken);
  }

  lemma SegmentReceived(k: Conn, taken: seq<Message>)
    requires Segment(k, taken) && k.queue != []
    ensures Segment(k.(queue := k.queue[1..], received := k.received + [k.queue[0]]), taken)
  {
    assert (k.received + [k.queue[0]]) + k.queue[1..] == k.received + k.queue;
  }

  lemma TakeKeepsInv(h: Hub)
    requires Inv(h) && Enabled(h, Take)
    ensures Inv(Step(h, Take))
  {
    forall c | c in h.conns ensures Segment(h.conns[c], h.taken + [h.broadcast[0]]) {
      SegmentGrows(h.conns[c], h.taken, h.broadcast[0]);
    }
  }

  lemma DeliverKeepsInv(h: Hub, c: int)
    requires Inv(h) && Enabled(h, Deliver(c))
    ensures Inv(Step(h, Deliver(c)))
  {
    hide Segment;
    assert UpToDate(h, c);
    SegmentExtends(h.conns[c], h.taken);
  }

  lemma RegisterKeepsInv(h: Hub, c: int)
    requires Inv(h) && Enabled(h, Register(c))
    ensures Inv(Step(h, Register(c)))
  {
    hide Segment;
    SegmentEmpty(h.taken);
  }

  lemma SegmentEmpty(taken: seq<Message>)
    ensures Segment(Conn([], [], |taken|, 0, true), taken)
  {
    assert taken[|taken|..|taken|] == [];
  }

  lemma SegmentIgnores(k: Conn, l: Conn, taken: seq<Message>)
    requires Segment(k, taken) && l.received == k.received && l.queue == k.queue && l.since == k.since
    ensures Segment(l, taken)
  {
  }

  lemma UnregisterKeepsInv(h: Hub, s: Sender)
    requires Inv(h) && Enabled(h, Unregister(s))
    ensures Inv(Step(h, Unregister(s)))
  {
    hide Segment;
    match s {
      case Reader(c) => SegmentIgnores(h.conns[c], Step(h, Unregister(s)).conns[c], h.taken);
      case Loop => LoopIsNotReceived(h);
    }
  }

  /** The loop cannot receive what it is sending: it stands at one place at a time. */
  lemma LoopIsNotReceived(h: Hub)
    ensures !Enabled(h, Unregister(Loop))
  {
  }

  lemma OtherKeepsInv(h: Hub, a: Action)
    requires Inv(h) && Enabled(h, a)
    requires a.Finish? || a.Publish? || a.StopCheck? || a.StopClose?
    ensures Inv(Step(h, a))
  {
    hide Segment;
  }

  lemma QuitKeepsInv(h: Hub)
    requires Inv(h) && Enabled(h, Quit)
    ensures Inv(Step(h, Quit))
  {
  }

  lemma StepKeepsInv(h: Hub, a: Action)
    requires Inv(h) && Enabled(h, a)
    ensures Inv(Step(h, a))
  {
    hide Inv, Step, Enabled;
    match a {
      case Take => TakeKeepsInv(h);
      case Deliver(c) => DeliverKeepsInv(h, c);
      case Receive(c) => ReceiveKeepsInv(h, c);
      case Quit => QuitKeepsInv(h);
      case Register(c) => RegisterKeepsInv(h, c);
      case Unregister(s) => UnregisterKeepsInv(h, s);
      case _ => OtherKeepsInv(h, a);
    }
  }

  predicate Feasible(h: Hub, run: seq<Action>)
    decreases |run|
  {
    run == [] || (Enabled(h, run[0]) && Feasible(Step(h, run[0]), run[1..]))
  }

  function After(h: Hub, run: seq<Action>): Hub
    requires Feasible(h, run)
    decreases |run|
  {
    if run == [] then h else After(Step(h, run[0]), run[1..])
  }

  lemma {:induction false} RunKeepsInv(h: Hub, run: seq<Action>)
    requires Inv(h) && Feasible(h, run)
    ensures Inv(After(h, run))
    decreases |run|
  {
    if run != [] {
      StepKeepsInv(h, run[0]);
      RunKeepsInv(Step(h, run[0]), run[1..]);
    }
  }

  /** Over every interleaving, no client's channel is closed twice and none is sent to after it was closed. */
  lemma ChannelsAreSafe(run: seq<Action>)
    requires Feasible(START, run)
    ensures !After(START, run).panicked
    ensures forall c | c in After(START, run).conns :: After(START, run).conns[c].closes <= 1
  {
    RunKeepsInv(START, run);
  }

  /** Over every interleaving, what each client was sent is a contiguous, in-order segment of the
      broadcast messages beginning at its registration; and between deliveries a client that is
      still registered has been sent all of them. */
  lemma ClientsSeeASegment(run: seq<Action>, c: int)
    requires Feasible(START, run) && c in After(START, run).conns
    ensures var h := After(START, run); var k := h.conns[c]; var sent := k.received + k.queue;
            && k.since + |sent| <= |h.taken|
            && sent == h.taken[k.since..k.since + |sent|]
            && (c in h.clients && h.phase.Idle? ==> sent == h.taken[k.since..])
  {
    RunKeepsInv(START, run);
    var h := After(START, run);
    assert Segment(h.conns[c], h.taken);
    if c in h.clients && h.phase.Idle? {
      assert UpToDate(h, c);
      assert h.taken[h.conns[c].since..] == h.taken[h.conns[c].since..|h.taken|];
    }
  }

  /** What panics: closing a client's channel that is closed, or sending to one; and nothing else. */
  lemma PanicsExactly(h: Hub, a: Action)
    requires Enabled(h, a)
    ensures Step(h, a).panicked <==>
            || h.panicked
            || (exists c :: c in h.conns && c in Step(h, a).conns && h.conns[c].closes < Step(h, a).conns[c].closes
                            && Step(h, a).conns[c].closes >= 2)
            || (a.Deliver? && h.conns[a.c].closes > 0)
  {
  }

  /** The unregister requests that the reader of a client gets through. */
  function Requests(run: seq<Action>, c: int): nat {
    if run == [] then 0 else (if run[0] == Unregister(Reader(c)) then 1 else 0) + Requests(run[1..], c)
  }

  lemma {:induction false} ReaderIsDone(h: Hub, run: seq<Action>, c: int)
    requires Feasible(h, run) && c in h.conns && !h.conns[c].reading
    ensures Requests(run, c) == 0
    decreases |run|
  {
    if run != [] { ReaderIsDone(Step(h, run[0]), run[1..], c); }
  }

  /** Over any run, the reader of a client makes at most one unregister request. */
  lemma {:induction false} ReaderAsksOnce(h: Hub, run: seq<Action>, c: int)
    requires Feasible(h, run)
    ensures Requests(run, c) <= 1
    decreases |run|
  {
    hide Enabled, Feasible;
    if run != [] {
      StepsOn(h, run);
      if run[0] == Unregister(Reader(c)) {
        ReaderStops(h, c);
        ReaderIsDone(Step(h, run[0]), run[1..], c);
      } else {
        ReaderAsksOnce(Step(h, run[0]), run[1..], c);
      }
    }
  }

  lemma StepsOn(h: Hub, run: seq<Action>)
    requires Feasible(h, run) && run != []
    ensures Enabled(h, run[0]) && Feasible(Step(h, run[0]), run[1..])
  {
  }

  lemma ReaderStops(h: Hub, c: int)
    requires Enabled(h, Unregister(Reader(c)))
    ensures var g := Step(h, Unregister(Reader(c))); c in g.conns && !g.conns[c].reading
  {
  }

  /** The messages callers hand to `Broadcast` that are not dropped: those that find fewer than 256 waiting. */
  function Published(h: Hub, run: seq<Action>): seq<Message>
    requires Feasible(h, run)
    decreases |run|
  {
    if run == [] then []
    else
      (if run[0].Publish? && |h.accepted| - |h.taken| < 256 then [run[0].m] else [])
      + Published(Step(h, run[0]), run[1..])
  }

  lemma AcceptedStep(h: Hub, a: Action)
    requires Inv(h) && Enabled(h, a)
    ensures Step(h, a).accepted == h.accepted + if a.Publish? && |h.accepted| - |h.taken| < 256 then [a.m] else []
  {
    assert h.accepted + [] == h.accepted;
  }

  lemma {:induction false} AcceptedArePublished(h: Hub, run: seq<Action>)
    requires Inv(h) && Feasible(h, run)
    ensures After(h, run).accepted == h.accepted + Published(h, run)
    decreases |run|
  {
    hide Step, Enabled, Inv;
    if run != [] {
      AcceptedStep(h, run[0]);
      StepKeepsInv(h, run[0]);
      AcceptedArePublished(Step(h, run[0]), run[1..]);
    }
  }

  /** The loop takes messages in the order they were published, and at most 256 of them are still waiting. */
  lemma TakenInOrder(run: seq<Action>)
    requires Feasible(START, run)
    ensures After(START, run).taken <= Published(START, run)
    ensures |Published(START, run)| - |After(START, run).taken| <= 256
  {
    StartInv();
    RunKeepsInv(START, run);
    AcceptedArePublished(START, run);
    var h := After(START, run);
    assert [] + Published(START, run) == Published(START, run) == h.taken + h.broadcast;
  }

  lemma StartInv()
    ensures Inv(START)
  {
  }

  // ---------------------------------------------------------------- the slow client

  /** Handing a message to a client puts the loop into its own send iff that client's channel is full. */
  lemma DeliverBlocksIff(h: Hub, c: int)
    requires Inv(h) && Enabled(h, Deliver(c))
    ensures Step(h, Deliver(c)).phase.Sending? <==> |h.conns[c].queue| == 256
  {
  }

  /** Nobody receives while the loop sends, so its place does not change, and nothing that needs it happens. */
  lemma StuckStep(h: Hub, a: Action)
    requires Offers(h, Loop) && Enabled(h, a)
    ensures var g := Step(h, a);
            && g.phase == h.phase && g.taken == h.taken && g.clients == h.clients
            && g.conns.Keys == h.conns.Keys
            && forall c | c in h.conns :: g.conns[c].closes == h.conns[c].closes
  {
    if a.Unregister? { LoopIsNotReceived(h); }
  }

  /** Once the loop sends on its own channel, whatever happens around it, including the slow client draining its
      channel and `Stop`: no message is taken, no client is registered, disconnected or closed, and the loop
      never returns. */
  lemma {:induction false} BlockedForever(h: Hub, run: seq<Action>)
    requires Offers(h, Loop) && Feasible(h, run)
    ensures var g := After(h, run);
            && g.phase == h.phase && g.taken == h.taken && g.clients == h.clients
            && g.conns.Keys == h.conns.Keys
            && forall c | c in h.conns :: g.conns[c].closes == h.conns[c].closes
    decreases |run|
  {
    hide Step, Enabled;
    if run != [] {
      StuckStep(h, run[0]);
      BlockedForever(Step(h, run[0]), run[1..]);
    }
  }

  /** One idle client `c` with `n` messages waiting, and nothing else. */
  predicate Filled(h: Hub, c: int, n: nat) {
    && h.phase.Idle? && h.clients == {c} && h.conns.Keys == {c} && h.broadcast == []
    && h.conns[c].closes == 0 && |h.conns[c].queue| == n
  }

  lemma {:induction false} AfterConcat(h: Hub, a: seq<Action>, b: seq<Action>)
    requires Feasible(h, a) && Feasible(After(h, a), b)
    ensures Feasible(h, a + b) && After(h, a + b) == After(After(h, a), b)
    decreases |a|
  {
    hide Step, Enabled;
    if a == [] {
      assert a + b == b;
    } else {
      AfterConcat(Step(h, a[0]), a[1..], b);
      assert (a + b)[0] == a[0] && (a + b)[1..] == a[1..] + b;
    }
  }

  lemma Once(h: Hub, a: Action)
    requires Enabled(h, a)
    ensures Feasible(h, [a]) && After(h, [a]) == Step(h, a)
  {
    assert [a][1..] == [];
    assert Feasible(Step(h, a), []) && After(Step(h, a), []) == Step(h, a);
  }

  /** A published message on its way to `c`. */
  predicate Underway(h: Hub, c: int, n: nat) {
    && h.phase.Delivering? && h.phase.pending == {c} && h.clients == {c} && h.conns.Keys == {c} && h.broadcast == []
    && h.conns[c].closes == 0 && |h.conns[c].queue| == n
  }

  lemma PublishOne(h: Hub, c: int, n: nat, m: Message) returns (run: seq<Action>)
    requires Filled(h, c, n)
    ensures Feasible(h, run) && Underway(After(h, run), c, n)
  {
    hide Feasible, After;
    Once(h, Publish(m));
    var h' := Step(h, Publish(m));
    Once(h', Take);
    AfterConcat(h, [Publish(m)], [Take]);
    run := [Publish(m)] + [Take];
  }

  lemma DeliverOne(h: Hub, c: int, n: nat) returns (run: seq<Action>)
    requires Underway(h, c, n) && n < CAPACITY
    ensures Feasible(h, run) && Filled(After(h, run), c, n + 1)
  {
    hide Feasible, After;
    Once(h, Deliver(c));
    var h' := Step(h, Deliver(c));
    Once(h', Finish);
    AfterConcat(h, [Deliver(c)], [Finish]);
    run := [Deliver(c)] + [Finish];
  }

  lemma {:induction false} BlockAfter(h: Hub, c: int, n: nat, m: Message) returns (run: seq<Action>)
    requires Filled(h, c, n) && n <= CAPACITY
    ensures Feasible(h, run) && Offers(After(h, run), Loop)
    decreases CAPACITY - n
  {
    hide Feasible, After, Filled, Underway, Enabled, Step;
    var take := PublishOne(h, c, n, m);
    var h' := After(h, take);
    var rest: seq<Action>;
    if n < CAPACITY {
      var give := DeliverOne(h', c, n);
      var more := BlockAfter(After(h', give), c, n + 1, m);
      AfterConcat(h', give, more);
      rest := give + more;
    } else {
      LastStraw(h', c);
      Once(h', Deliver(c));
      rest := [Deliver(c)];
    }
    AfterConcat(h, take, rest);
    run := take + rest;
  }

  lemma LastStraw(h: Hub, c: int)
    requires Underway(h, c, CAPACITY)
    ensures Enabled(h, Deliver(c)) && Offers(Step(h, Deliver(c)), Loop)
  {
  }

  /** The loop can get there: one client that does not read, and 257 messages. */
  lemma BlockIsReachable(c: int, m: Message) returns (run: seq<Action>)
    ensures Feasible(START, run) && Offers(After(START, run), Loop)
  {
    hide Feasible, After;
    Once(START, Register(c));
    var more := BlockAfter(Step(START, Register(c)), c, 0, m);
    AfterConcat(START, [Register(c)], more);
    run := [Register(c)] + more;
  }

  // ---------------------------------------------------------------- stopping

  /** A loop that is not blocked can go on: it delivers, finishes, or waits in its select; after
      `Stop` it can always reach its return. */
  lemma UnblockedCanStop(h: Hub) returns (run: seq<Action>)
    requires Inv(h) && h.Quit() && !h.phase.Sending? && !h.phase.Stopped?
    requires h.phase.Delivering? ==> forall c | c in h.phase.pending :: |h.conns[c].queue| < CAPACITY
    ensures Feasible(h, run) && After(h, run).phase.Stopped?
    ensures forall c | c in After(h, run).conns :: After(h, run).conns[c].closes == 1
    decreases if h.phase.Delivering? then |h.phase.pending| + 1 else 0
  {
    if h.phase.Idle? {
      QuitKeepsInv(h);
      run := [Quit];
    } else if h.phase.pending == {} {
      StepKeepsInv(h, Finish);
      var rest := UnblockedCanStop(Step(h, Finish));
      run := [Finish] + rest;
    } else {
      var pending := h.phase.pending;
      assert (forall c :: c !in pending) ==> pending == {};
      var c :| c in pending;
      StepKeepsInv(h, Deliver(c));
      var rest := UnblockedCanStop(Step(h, Deliver(c)));
      run := [Deliver(c)] + rest;
    }
  }

  ghost predicate NoChecks(run: seq<Action>) {
    forall i | 0 <= i < |run| :: run[i] != StopCheck
  }

  lemma StopStep(h: Hub, a: Action)
    requires Enabled(h, a)
    ensures var h' := Step(h, a);
            h'.closing + h'.quitCloses == h.closing + h.quitCloses + if a == StopCheck && !h.Quit() then 1 else 0
  {
  }

  lemma {:induction false} PassedStays(h: Hub, run: seq<Action>)
    requires Feasible(h, run) && NoChecks(run)
    ensures After(h, run).closing + After(h, run).quitCloses == h.closing + h.quitCloses
    decreases |run|
  {
    hide Step, Enabled;
    if run != [] {
      StopStep(h, run[0]);
      PassedStays(Step(h, run[0]), run[1..]);
    }
  }

  lemma {:induction false} CloseAll(h: Hub) returns (run: seq<Action>)
    ensures Feasible(h, run) && NoChecks(run) && After(h, run).quitCloses == h.quitCloses + h.closing
    decreases h.closing
  {
    run := [];
    if h.closing > 0 {
      var rest := CloseAll(Step(h, StopClose));
      run := [StopClose] + rest;
    }
  }

  /** However the callers of `Stop` that have begun are scheduled, they close the `quit` channel at most once iff
      at most one of them found it open. */
  lemma BegunCloseOnceIff(h: Hub)
    ensures (forall run | Feasible(h, run) && NoChecks(run) :: After(h, run).quitCloses <= 1) <==>
            h.closing + h.quitCloses <= 1
  {
    if h.closing + h.quitCloses <= 1 {
      forall run | Feasible(h, run) && NoChecks(run) ensures After(h, run).quitCloses <= 1 {
        PassedStays(h, run);
      }
    } else {
      var run := CloseAll(h);
      assert After(h, run).quitCloses > 1;
    }
  }

  /** `Stop` checks the `quit` channel and then closes it, in two steps; in a serial run nobody checks between
      another caller's two steps. */
  ghost predicate Serial(h: Hub, run: seq<Action>)
    requires Feasible(h, run)
    decreases |run|
  {
    run != [] ==> (run[0] == StopCheck ==> h.Quit() || h.closing == 0) && Serial(Step(h, run[0]), run[1..])
  }

  lemma {:induction false} BegunOnlyGrow(h: Hub, run: seq<Action>)
    requires Feasible(h, run)
    ensures After(h, run).closing + After(h, run).quitCloses >= h.closing + h.quitCloses
    decreases |run|
  {
    hide Step, Enabled;
    if run != [] {
      StopStep(h, run[0]);
      BegunOnlyGrow(Step(h, run[0]), run[1..]);
    }
  }

  lemma {:induction false} SerialIff(h: Hub, run: seq<Action>)
    requires Feasible(h, run) && h.closing + h.quitCloses <= 1
    ensures After(h, run).closing + After(h, run).quitCloses <= 1 <==> Serial(h, run)
    decreases |run|
  {
    hide Step, Enabled;
    if run != [] {
      StopStep(h, run[0]);
      if Step(h, run[0]).closing + Step(h, run[0]).quitCloses <= 1 {
        SerialIff(Step(h, run[0]), run[1..]);
      } else {
        BegunOnlyGrow(Step(h, run[0]), run[1..]);
      }
    }
  }

  /** Over any run of loop, clients and callers: `quit` has been closed at most once, and whatever the callers that
      have begun do next it stays so, iff the run was serial. */
  lemma QuitClosedOnceIff(h: Hub, run: seq<Action>)
    requires Feasible(h, run) && h.closing + h.quitCloses <= 1
    ensures Serial(h, run) ==> After(h, run).quitCloses <= 1
    ensures Serial(h, run) <==>
            forall rest | Feasible(After(h, run), rest) && NoChecks(rest) :: After(After(h, run), rest).quitCloses <= 1
  {
    hide Feasible, After, Serial;
    SerialIff(h, run);
    BegunCloseOnceIff(After(h, run));
  }

  /** Two concurrent callers can both find it open, and close it twice. */
  lemma TwoStopsCloseTwice() returns (run: seq<Action>)
    ensures run == [StopCheck, StopCheck, StopClose, StopClose]
    ensures Feasible(START, run) && After(START, run).quitCloses == 2
  {
    hide Feasible, After;
    var h := Step(Step(START, StopCheck), StopCheck);
    Once(START, StopCheck);
    Once(Step(START, StopCheck), StopCheck);
    AfterConcat(START, [StopCheck], [StopCheck]);
    Once(h, StopClose);
    Once(Step(h, StopClose), StopClose);
    AfterConcat(h, [StopClose], [StopClose]);
    run := ([StopCheck] + [StopCheck]) + ([StopClose] + [StopClose]);
    AfterConcat(START, [StopCheck] + [StopCheck], [StopClose] + [StopClose]);
  }
}
