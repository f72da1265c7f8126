/** The agent's push loop: flush the retry buffer, send the current batch, buffer it on failure.
    Every produced batch is accounted for; an error from `Send` means "not delivered". */
module AgentLoop {
  import opened Sequences

  /** A batch is known by its production index; `at` is its timestamp. */
  datatype Batch = Batch(id: nat, at: int)

  /** The agent's buffer limits, the buffer, and where every other produced batch went. */
  datatype State = State(maxAge: int, maxSize: nat, buffered: seq<Batch>, produced: seq<Batch>,
                         delivered: seq<Batch>, aged: seq<Batch>, overflowed: seq<Batch>, dropped: seq<Batch>)

  function Fresh(bs: seq<Batch>, cutoff: int): seq<Batch> {
    if bs == [] then []
    else
      var n := |bs| - 1;
      if bs[n].at > cutoff then Fresh(bs[..n], cutoff) + [bs[n]] else Fresh(bs[..n], cutoff)
  }

  function Expired(bs: seq<Batch>, cutoff: int): seq<Batch> {
    if bs == [] then []
    else
      var n := |bs| - 1;
      if bs[n].at > cutoff then Expired(bs[..n], cutoff) else Expired(bs[..n], cutoff) + [bs[n]]
  }

  lemma {:induction false} FreshFilters(bs: seq<Batch>, cutoff: int)
    ensures Filtered(Fresh(bs, cutoff), bs, (b: Batch) => b.at > cutoff)
    ensures forall b | b in Fresh(bs, cutoff) :: b in bs && b.at > cutoff
  {
    hide Filtered;
    if bs == [] {
      FilteredNothing((b: Batch) => b.at > cutoff);
    } else {
      var n := |bs| - 1;
      FreshFilters(bs[..n], cutoff);
      FilteredStep(Fresh(bs[..n], cutoff), bs[..n], bs[n], (b: Batch) => b.at > cutoff);
      assert bs == bs[..n] + [bs[n]];
    }
  }

  function Excess(n: nat, maxSize: nat): nat {
    if n > maxSize then n - maxSize else 0
  }

  lemma NoBatches(cutoff: int)
    ensures Fresh([], cutoff) == []
  {
  }

  lemma FreshStep(bs: seq<Batch>, i: nat, cutoff: int)
    requires i < |bs|
    ensures Fresh(bs[..i + 1], cutoff) ==
            if bs[i].at > cutoff then Fresh(bs[..i], cutoff) + [bs[i]] else Fresh(bs[..i], cutoff)
  {
    assert bs[..i + 1][..i] == bs[..i];
  }

  /** Of the batches younger than the cutoff and the new one, in order, `after` has all, or the `maxSize` newest. */
  ghost predicate Newest(before: seq<Batch>, batch: Batch, after: seq<Batch>, cutoff: int, maxSize: nat) {
    exists young ::
      && Filtered(young, before, (b: Batch) => b.at > cutoff)
      && (if |young| + 1 <= maxSize then after == young + [batch]
          else |after| == maxSize && after == (young + [batch])[|young| + 1 - maxSize..])
  }

  lemma NewestKept(before: seq<Batch>, batch: Batch, cutoff: int, maxSize: nat)
    ensures var kept := Fresh(before, cutoff) + [batch];
            var after := kept[Excess(|kept|, maxSize)..];
            && Newest(before, batch, after, cutoff, maxSize) && |after| <= maxSize
            && forall b | b in after :: b == batch || (b in before && b.at > cutoff)
  {
    hide Filtered;
    var young := Fresh(before, cutoff);
    FreshFilters(before, cutoff);
    var kept := young + [batch];
    assert forall b | b in kept[Excess(|kept|, maxSize)..] :: b in kept;
  }

  function AddStep(s: State, b: Batch, now: int): State {
    var kept := Fresh(s.buffered, now - s.maxAge) + [b];
    var over := Excess(|kept|, s.maxSize);
    s.(buffered := kept[over..], aged := s.aged + Expired(s.buffered, now - s.maxAge),
       overflowed := s.overflowed + kept[..over])
  }

  /** The buffer is drained and its first `sent` batches are delivered; if one is left, the send of
      that one failed: it alone goes back into the buffer and the ones behind it are lost. */
  function FlushStep(s: State, now: int, sent: nat): State
    requires sent <= |s.buffered|
  {
    var drained := s.(buffered := [], delivered := s.delivered + s.buffered[..sent]);
    if sent == |s.buffered| then drained
    else AddStep(drained.(dropped := s.dropped + s.buffered[sent + 1..]), s.buffered[sent], now)
  }

  /** One collection round: the batch is stamped at `at`, buffer operations read the clock at
      `now`; `sent` counts the buffered batches that got through, `ok` tells of the current one. */
  datatype Round = Round(at: int, flushedAt: int, addedAt: int, sent: nat, ok: bool)

  function RoundStep(s: State, r: Round): State
    requires r.sent <= |s.buffered|
  {
    var b := Batch(|s.produced|, r.at);
    var f := FlushStep(s.(produced := s.produced + [b]), r.flushedAt, r.sent);
    if r.ok then f.(delivered := f.delivered + [b]) else AddStep(f, b, r.addedAt)
  }

  // ---------------------------------------------------------------- the code

  class MetricBuffer {
    var batches: seq<Batch>
    const maxAge: int
    const maxSize: nat

    constructor (maxAge: int, maxSize: nat)
      ensures this.maxAge == maxAge && this.maxSize == maxSize && batches == []
    {
      this.maxAge, this.maxSize, batches := maxAge, maxSize, [];
    }

    method Add(batch: Batch, now: int)
      modifies this
      ensures var kept := Fresh(old(batches), now - maxAge) + [batch];
              batches == kept[Excess(|kept|, maxSize)..]
      ensures |batches| <= maxSize
      ensures forall b | b in batches :: b == batch || (b in old(batches) && b.at > now - maxAge)
      ensures Newest(old(batches), batch, batches, now - maxAge, maxSize)
    {
      hide Newest, Fresh;
      NewestKept(batches, batch, now - maxAge, maxSize);
      NoBatches(now - maxAge);
      var cutoff := now - maxAge;
      var valid: seq<Batch> := [];
      for i := 0 to |batches|
        invariant batches == old(batches)
        invariant valid == Fresh(batches[..i], cutoff)
      {
        FreshStep(batches, i, cutoff);
        if batches[i].at > cutoff {
          valid := valid + [batches[i]];
        }
      }
      assert batches[..|batches|] == batches;
      batches := valid + [batch];
      if |batches| > maxSize {
        batches := batches[|batches| - maxSize..];
      }
    }

    method Drain() returns (result: seq<Batch>)
      modifies this
      ensures result == old(batches) && batches == []
    {
      result := batches;
      batches := [];
    }
  }

  /** The transport: a send either delivers the batch or fails, as the network pleases. */
  class PushClient {
    var delivered: seq<Batch>

    constructor ()
      ensures delivered == []
    {
      delivered := [];
    }

    method Send(batch: Batch) returns (ok: bool)
      modifies this
      ensures delivered == if ok then old(delivered) + [batch] else old(delivered)
    {
      ok := *;
      if ok {
        delivered := delivered + [batch];
      }
    }
  }

  class Agent {
    const buffer: MetricBuffer
    const push: PushClient
    ghost var produced: seq<Batch>
    ghost var aged: seq<Batch>
    ghost var overflowed: seq<Batch>
    ghost var dropped: seq<Batch>
    var count: nat

    constructor ()
      ensures fresh(buffer) && fresh(push)
      ensures View() == Start(5 * 60_000_000_000, 10) && count == 0
    {
      buffer := new MetricBuffer(5 * 60_000_000_000, 10);
      push := new PushClient();
      produced, aged, overflowed, dropped, count := [], [], [], [], 0;
    }

    ghost function View(): State
      reads this, buffer, push
    {
      State(buffer.maxAge, buffer.maxSize, buffer.batches, produced, push.delivered, aged, overflowed, dropped)
    }

    method AddToBuffer(batch: Batch, now: int)
      modifies this`aged, this`overflowed, buffer
      ensures View() == AddStep(old(View()), batch, now)
    {
      hide Newest, Fresh, Expired;
      ghost var kept := Fresh(buffer.batches, now - buffer.maxAge) + [batch];
      aged := aged + Expired(buffer.batches, now - buffer.maxAge);
      overflowed := overflowed + kept[..Excess(|kept|, buffer.maxSize)];
      buffer.Add(batch, now);
    }

    method FlushBuffer(now: int) returns (sent: nat)
      modifies this`aged, this`overflowed, this`dropped, buffer, push
      ensures sent <= |old(buffer.batches)|
      ensures View() == FlushStep(old(View()), now, sent)
    {
      var batches := buffer.Drain();
      sent := 0;
      while sent < |batches|
        invariant sent <= |batches|
        invariant View() == old(View()).(buffered := [], delivered := old(push.delivered) + batches[..sent])
      {
        var ok := push.Send(batches[sent]);
        if !ok {
          dropped := dropped + batches[sent + 1..];
          AddToBuffer(batches[sent], now);
          return;
        }
        sent := sent + 1;
      }
    }

    method CollectAndPush(at: int, flushedAt: int, addedAt: int) returns (sent: nat, ok: bool)
      requires count == |produced|
      modifies this, buffer, push
      ensures count == |produced|
      ensures sent <= |old(buffer.batches)|
      ensures View() == RoundStep(old(View()), Round(at, flushedAt, addedAt, sent, ok))
    {
      var batch := Batch(count, at);
      count := count + 1;
      produced := produced + [batch];
      sent := FlushBuffer(flushedAt);
      ok := push.Send(batch);
      if !ok {
        AddToBuffer(batch, addedAt);
      }
    }
  }

  // ---------------------------------------------------------------- runs

  function Start(maxAge: int, maxSize: nat): State {
    State(maxAge, maxSize, [], [], [], [], [], [])
  }

  /** The rounds fit the states they are run in. */
  predicate Feasible(s: State, rs: seq<Round>)
    decreases |rs|
  {
    rs == [] || (rs[0].sent <= |s.buffered| && Feasible(RoundStep(s, rs[0]), rs[1..]))
  }

  function Run(s: State, rs: seq<Round>): State
    requires Feasible(s, rs)
    decreases |rs|
  {
    if rs == [] then s else Run(RoundStep(s, rs[0]), rs[1..])
  }

  /** Every produced batch is in exactly one place, once. */
  ghost predicate Accounted(s: State) {
    && (forall i | 0 <= i < |s.produced| :: s.produced[i].id == i)
    && multiset(s.produced) ==
       multiset(s.delivered) + multiset(s.buffered) + multiset(s.aged) + multiset(s.overflowed) + multiset(s.dropped)
  }

  lemma {:induction false} FreshAndExpired(bs: seq<Batch>, cutoff: int)
    ensures multiset(bs) == multiset(Fresh(bs, cutoff)) + multiset(Expired(bs, cutoff))
  {
    if bs != [] {
      var n := |bs| - 1;
      FreshAndExpired(bs[..n], cutoff);
      assert bs == bs[..n] + [bs[n]];
    }
  }

  /** All the places a batch can be in. */
  function Places(s: State): multiset<Batch> {
    multiset(s.delivered) + multiset(s.buffered) + multiset(s.aged) + multiset(s.overflowed) + multiset(s.dropped)
  }

  /** Splitting a list splits its multiset. */
  lemma SplitPlaces(bs: seq<Batch>, k: nat)
    requires k <= |bs|
    ensures multiset(bs) == multiset(bs[..k]) + multiset(bs[k..])
  {
    assert bs == bs[..k] + bs[k..];
  }

  /** The bookkeeping of one `Add`. */
  lemma AddUp(d: multiset<Batch>, buffered: multiset<Batch>, aged: multiset<Batch>, over: multiset<Batch>,
              dropped: multiset<Batch>, young: multiset<Batch>, expired: multiset<Batch>, front: multiset<Batch>,
              back: multiset<Batch>, b: Batch)
    requires buffered == young + expired && young + multiset{b} == front + back
    ensures d + back + (aged + expired) + (over + front) + dropped == d + buffered + aged + over + dropped + multiset{b}
  {
    forall x ensures back[x] + expired[x] + front[x] == buffered[x] + multiset{b}[x] {
      assert (young + multiset{b})[x] == (front + back)[x];
    }
  }

  lemma AddPlaces(s: State, b: Batch, now: int)
    ensures Places(AddStep(s, b, now)) == Places(s) + multiset{b}
    ensures AddStep(s, b, now).produced == s.produced
  {
    hide Fresh, Expired, Excess;
    var young, expired := Fresh(s.buffered, now - s.maxAge), Expired(s.buffered, now - s.maxAge);
    var kept := young + [b];
    ExcessBound(|kept|, s.maxSize);
    var over := Excess(|kept|, s.maxSize);
    FreshAndExpired(s.buffered, now - s.maxAge);
    SplitPlaces(kept, over);
    assert multiset(kept) == multiset(young) + multiset{b};
    assert multiset(s.aged + expired) == multiset(s.aged) + multiset(expired);
    assert multiset(s.overflowed + kept[..over]) == multiset(s.overflowed) + multiset(kept[..over]);
    AddUp(multiset(s.delivered), multiset(s.buffered), multiset(s.aged), multiset(s.overflowed), multiset(s.dropped),
          multiset(young), multiset(expired), multiset(kept[..over]), multiset(kept[over..]), b);
  }

  lemma ExcessBound(n: nat, maxSize: nat)
    ensures Excess(n, maxSize) <= n
  {
  }

  lemma FlushPlaces(s: State, now: int, sent: nat)
    requires sent <= |s.buffered|
    ensures Places(FlushStep(s, now, sent)) == Places(s)
    ensures FlushStep(s, now, sent).produced == s.produced
  {
    if sent == |s.buffered| {
      assert s.buffered[..sent] == s.buffered;
    } else {
      assert s.buffered == s.buffered[..sent] + [s.buffered[sent]] + s.buffered[sent + 1..];
      AddPlaces(s.(buffered := [], delivered := s.delivered + s.buffered[..sent],
                   dropped := s.dropped + s.buffered[sent + 1..]), s.buffered[sent], now);
    }
  }

  lemma RoundPlaces(s: State, r: Round)
    requires r.sent <= |s.buffered|
    ensures Places(RoundStep(s, r)) == Places(s) + multiset{Batch(|s.produced|, r.at)}
    ensures RoundStep(s, r).produced == s.produced + [Batch(|s.produced|, r.at)]
  {
    var b := Batch(|s.produced|, r.at);
    var t := s.(produced := s.produced + [b]);
    FlushPlaces(t, r.flushedAt, r.sent);
    AddPlaces(FlushStep(t, r.flushedAt, r.sent), b, r.addedAt);
  }

  /** Batch accounting: after any run, whatever the network does, each produced batch is delivered,
      buffered, aged out, overflowed or dropped by a failed flush, exactly one of these, once. */
  lemma {:induction false} BatchesAccounted(s: State, rs: seq<Round>)
    requires Accounted(s) && Feasible(s, rs)
    ensures Accounted(Run(s, rs))
    decreases |rs|
  {
    if rs != [] {
      RoundPlaces(s, rs[0]);
      BatchesAccounted(RoundStep(s, rs[0]), rs[1..]);
    }
  }

  /** Consequently nothing is ever delivered twice. */
  lemma NoDuplicates(s: State)
    requires Accounted(s)
    ensures Distinct(s.delivered)
    ensures forall b | b in s.delivered :: b !in s.buffered && b !in s.aged && b !in s.overflowed && b !in s.dropped
  {
    forall b | b in Places(s) ensures Places(s)[b] == 1 {
      assert multiset(s.produced) == Places(s);
      assert b in s.produced;
      var i :| 0 <= i < |s.produced| && s.produced[i] == b;
      assert Distinct(s.produced);
      DistinctCount(s.produced, i);
    }
    forall b | b in s.delivered
      ensures multiset(s.delivered)[b] <= 1
      ensures b !in s.buffered && b !in s.aged && b !in s.overflowed && b !in s.dropped
    {
      assert b in multiset(s.delivered);
      assert b in Places(s);
      assert Places(s)[b] == 1;
    }
    CountDistinct(s.delivered);
  }

  // ---------------------------------------------------------------- the buffer stays tiny

  ghost predicate Small(s: State) {
    |s.buffered| <= 2 && s.overflowed == []
  }

  lemma {:induction false} FreshNoLonger(bs: seq<Batch>, cutoff: int)
    ensures |Fresh(bs, cutoff)| <= |bs|
  {
    if bs != [] { FreshNoLonger(bs[..|bs| - 1], cutoff); }
  }

  lemma AddToSmall(s: State, b: Batch, now: int)
    requires |s.buffered| <= 1 && s.maxSize >= 2 && s.overflowed == []
    ensures var t := AddStep(s, b, now);
            |t.buffered| <= |s.buffered| + 1 && t.overflowed == [] && t.dropped == s.dropped && t.maxSize == s.maxSize
  {
    FreshNoLonger(s.buffered, now - s.maxAge);
  }

  lemma FlushSmall(s: State, now: int, sent: nat)
    requires Small(s) && s.maxSize >= 2 && sent <= |s.buffered|
    ensures var t := FlushStep(s, now, sent);
            && |t.buffered| <= 1 && t.overflowed == [] && t.maxSize == s.maxSize
            && t.dropped == if |s.buffered| == 2 && sent == 0 then s.dropped + [s.buffered[1]] else s.dropped
  {
    if sent < |s.buffered| {
      assert s.buffered[sent + 1..] == if sent == 0 && |s.buffered| == 2 then [s.buffered[1]] else [];
      AddToSmall(s.(buffered := [], delivered := s.delivered + s.buffered[..sent],
                    dropped := s.dropped + s.buffered[sent + 1..]), s.buffered[sent], now);
    }
  }

  /** Although it may hold ten, the loop never leaves more than two batches in the buffer: the one
      whose flush failed and the current one. So overflow never happens; and a round loses a batch
      to a failed flush exactly when two were buffered and the first of them failed. */
  lemma RoundStaysSmall(s: State, r: Round)
    requires Small(s) && s.maxSize >= 2 && r.sent <= |s.buffered|
    ensures Small(RoundStep(s, r)) && RoundStep(s, r).maxSize == s.maxSize
    ensures RoundStep(s, r).dropped ==
            if |s.buffered| == 2 && r.sent == 0 then s.dropped + [s.buffered[1]] else s.dropped
  {
    hide FlushStep, AddStep;
    var b := Batch(|s.produced|, r.at);
    var t := s.(produced := s.produced + [b]);
    FlushSmall(t, r.flushedAt, r.sent);
    AddToSmall(FlushStep(t, r.flushedAt, r.sent), b, r.addedAt);
  }

  /** Where one round leaves every batch. The buffered ones are delivered up to the first failure; that one is
      buffered again unless the new batch is buffered when it is too old by then; the ones behind it are lost. */
  lemma RoundIs(s: State, r: Round)
    requires Small(s) && s.maxSize >= 2 && r.sent <= |s.buffered|
    ensures var b, left, t := Batch(|s.produced|, r.at), s.buffered[r.sent..], RoundStep(s, r);
            var kept := left != [] && (r.ok || left[0].at > r.addedAt - s.maxAge);
            && t.produced == s.produced + [b]
            && t.delivered == s.delivered + s.buffered[..r.sent] + (if r.ok then [b] else [])
            && t.buffered == (if kept then [left[0]] else []) + (if r.ok then [] else [b])
            && t.dropped == s.dropped + (if left != [] then left[1..] else [])
            && t.aged == s.aged + (if left != [] && !kept then [left[0]] else [])
            && t.overflowed == s.overflowed
  {
    hide AddStep;
    var b := Batch(|s.produced|, r.at);
    var drained := s.(produced := s.produced + [b], buffered := [], delivered := s.delivered + s.buffered[..r.sent]);
    if r.sent < |s.buffered| {
      var x := s.buffered[r.sent];
      var lost := drained.(dropped := s.dropped + s.buffered[r.sent + 1..]);
      AddToNone(lost, x, r.flushedAt);
      AddToOne(lost.(buffered := [x]), x, b, r.addedAt);
    } else {
      AddToNone(drained, b, r.addedAt);
    }
  }

  lemma AddToNone(s: State, b: Batch, now: int)
    requires s.buffered == [] && s.maxSize >= 2
    ensures AddStep(s, b, now) == s.(buffered := [b])
  {
    assert Fresh([], now - s.maxAge) == [] && Expired([], now - s.maxAge) == [];
    assert s.aged + [] == s.aged && s.overflowed + [] == s.overflowed && [] + [b] == [b];
  }

  lemma OneBatch(x: Batch, cutoff: int)
    ensures Fresh([x], cutoff) == if x.at > cutoff then [x] else []
    ensures Expired([x], cutoff) == if x.at > cutoff then [] else [x]
  {
    assert [x][..0] == [];
  }

  lemma AddToOne(s: State, x: Batch, b: Batch, now: int)
    requires s.buffered == [x] && s.maxSize >= 2
    ensures AddStep(s, b, now) ==
            if x.at > now - s.maxAge then s.(buffered := [x, b]) else s.(buffered := [b], aged := s.aged + [x])
  {
    hide Fresh, Expired;
    OneBatch(x, now - s.maxAge);
    assert s.aged + [] == s.aged && s.overflowed + [] == s.overflowed;
  }

  lemma {:induction false} BufferNeverExceedsTwo(s: State, rs: seq<Round>)
    requires Small(s) && s.maxSize >= 2 && Feasible(s, rs)
    ensures Small(Run(s, rs))
    decreases |rs|
  {
    if rs != [] {
      RoundStaysSmall(s, rs[0]);
      BufferNeverExceedsTwo(RoundStep(s, rs[0]), rs[1..]);
    }
  }

  /** Three failing rounds lose a batch although the buffer has room for all of them. */
  lemma FlushLosesBatch()
    ensures var down := Round(0, 0, 0, 0, false);
            RoundStep(RoundStep(RoundStep(Start(300, 10), down), down), down).dropped == [Batch(1, 0)]
  {
    var down := Round(0, 0, 0, 0, false);
    var s0 := Start(300, 10);
    var s1 := RoundStep(s0, down);
    assert s1 == s0.(produced := [Batch(0, 0)], buffered := [Batch(0, 0)]);
    var s2 := RoundStep(s1, down);
    assert Fresh([Batch(0, 0)], -300) == [Batch(0, 0)] by { assert [Batch(0, 0)][..0] == []; }
    assert s2.buffered == [Batch(0, 0), Batch(1, 0)];
    RoundStaysSmall(s0, down);
    RoundStaysSmall(s1, down);
    RoundStaysSmall(s2, down);
  }

  // ---------------------------------------------------------------- delivery order

  ghost predicate Increasing(bs: seq<Batch>) {
    forall i, j | 0 <= i < j < |bs| :: bs[i].id < bs[j].id
  }

  /** What has been delivered, followed by what still waits, is in production order. */
  ghost predicate InOrder(s: State) {
    && Increasing(s.delivered + s.buffered)
    && forall b | b in s.delivered + s.buffered :: b.id < |s.produced|
  }

  lemma {:induction false} FreshKeepsOrder(pre: seq<Batch>, bs: seq<Batch>, cutoff: int)
    requires Increasing(pre + bs)
    ensures Increasing(pre + Fresh(bs, cutoff))
    ensures forall b | b in Fresh(bs, cutoff) :: b in bs
  {
    if bs == [] {
      assert pre + Fresh(bs, cutoff) == pre + bs;
    } else {
      var n := |bs| - 1;
      IncreasingPrefix(pre + bs, |pre| + n);
      assert (pre + bs)[..|pre| + n] == pre + bs[..n];
      FreshKeepsOrder(pre, bs[..n], cutoff);
      var kept := Fresh(bs[..n], cutoff);
      if bs[n].at > cutoff {
        forall i | 0 <= i < |pre + kept| ensures (pre + kept)[i].id < bs[n].id {
          assert (pre + bs)[|pre| + n] == bs[n];
          if i < |pre| {
            assert (pre + bs)[i] == pre[i];
          } else {
            assert kept[i - |pre|] in kept;
            assert kept[i - |pre|] in bs[..n];
            var j :| 0 <= j < n && bs[..n][j] == kept[i - |pre|];
            assert (pre + bs)[|pre| + j] == bs[j];
          }
        }
        assert pre + Fresh(bs, cutoff) == (pre + kept) + [bs[n]];
      }
    }
  }

  lemma IncreasingPrefix(bs: seq<Batch>, n: nat)
    requires Increasing(bs) && n <= |bs|
    ensures Increasing(bs[..n])
  {
  }

  /** Dropping batches from the middle keeps the order. */
  lemma IncreasingSkip(a: seq<Batch>, b: seq<Batch>, c: seq<Batch>)
    requires Increasing(a + b + c)
    ensures Increasing(a + c)
  {
    forall i, j | 0 <= i < j < |a + c| ensures (a + c)[i].id < (a + c)[j].id {
      var i', j' := if i < |a| then i else i + |b|, if j < |a| then j else j + |b|;
      assert (a + b + c)[i'] == (a + c)[i] && (a + b + c)[j'] == (a + c)[j];
    }
  }

  lemma IncreasingSnoc(a: seq<Batch>, b: Batch, bound: nat)
    requires Increasing(a) && b.id == bound
    requires forall x | x in a :: x.id < bound
    ensures Increasing(a + [b])
    ensures forall x | x in a + [b] :: x.id < bound + 1
  {
  }

  lemma AddKeepsOrder(s: State, b: Batch, now: int)
    requires Increasing(s.delivered + s.buffered) && b.id == |s.produced| - 1
    requires forall x | x in s.delivered + s.buffered :: x.id < |s.produced| - 1
    ensures InOrder(AddStep(s, b, now))
  {
    hide Fresh, Expired;
    var young := Fresh(s.buffered, now - s.maxAge);
    FreshKeepsOrder(s.delivered, s.buffered, now - s.maxAge);
    assert forall x | x in young :: x in s.delivered + s.buffered;
    IncreasingSnoc(s.delivered + young, b, |s.produced| - 1);
    var kept := young + [b];
    var over := Excess(|kept|, s.maxSize);
    assert s.delivered + young + [b] == s.delivered + kept[..over] + kept[over..];
    IncreasingSkip(s.delivered, kept[..over], kept[over..]);
    assert forall x | x in s.delivered + kept[over..] :: x in s.delivered + young + [b];
  }

  lemma FlushKeepsOrder(s: State, now: int, sent: nat)
    requires Increasing(s.delivered + s.buffered) && sent <= |s.buffered| && s.maxSize >= 1
    ensures var t := FlushStep(s, now, sent);
            && Increasing(t.delivered + t.buffered)
            && (forall x | x in t.delivered + t.buffered :: x in s.delivered + s.buffered)
            && t.delivered == s.delivered + s.buffered[..sent]
            && t.buffered == if sent < |s.buffered| then [s.buffered[sent]] else []
  {
    var all := s.delivered + s.buffered;
    var k := |s.delivered| + sent;
    assert Fresh([], now - s.maxAge) == [];
    IncreasingPrefix(all, if sent < |s.buffered| then k + 1 else k);
    if sent < |s.buffered| {
      assert all[..k + 1] == s.delivered + s.buffered[..sent] + [s.buffered[sent]];
    } else {
      assert all[..k] == s.delivered + s.buffered[..sent];
    }
  }

  /** A round keeps deliveries and waiting batches in production order iff it does not deliver the
      current batch after a buffered one failed. */
  lemma RoundKeepsOrderIff(s: State, r: Round)
    requires InOrder(s) && r.sent <= |s.buffered| && s.maxSize >= 1
    ensures InOrder(RoundStep(s, r)) <==> !(r.ok && r.sent < |s.buffered|)
  {
    hide FlushStep, AddStep, InOrder, Increasing;
    var b := Batch(|s.produced|, r.at);
    var t := s.(produced := s.produced + [b]);
    var f := FlushStep(t, r.flushedAt, r.sent);
    OrderFacts(s);
    FlushKeepsOrder(t, r.flushedAt, r.sent);
    FlushPlaces(t, r.flushedAt, r.sent);
    if !r.ok {
      AddKeepsOrder(f, b, r.addedAt);
    } else {
      SendEffect(f, b);
    }
  }

  lemma OrderFacts(s: State)
    requires InOrder(s)
    ensures Increasing(s.delivered + s.buffered)
    ensures forall b | b in s.delivered + s.buffered :: b.id < |s.produced|
  {
  }

  /** Delivering the newest batch is in order iff nothing older still waits. */
  lemma SendEffect(f: State, b: Batch)
    requires Increasing(f.delivered + f.buffered) && |f.buffered| <= 1 && b.id == |f.produced| - 1
    requires forall x | x in f.delivered + f.buffered :: x.id < |f.produced| - 1
    ensures InOrder(f.(delivered := f.delivered + [b])) <==> f.buffered == []
  {
    var after := f.delivered + [b] + f.buffered;
    if f.buffered == [] {
      assert after == f.delivered + [b] && f.delivered + f.buffered == f.delivered;
      IncreasingSnoc(f.delivered, b, |f.produced| - 1);
    } else {
      assert f.buffered[0] in f.delivered + f.buffered;
      assert after[|f.delivered|] == b && after[|f.delivered| + 1] == f.buffered[0];
    }
  }

  /** No round delivers its own batch after a failed flush. */
  predicate Patient(s: State, rs: seq<Round>)
    requires Feasible(s, rs)
    decreases |rs|
  {
    rs == [] || ((rs[0].ok ==> rs[0].sent == |s.buffered|) && Patient(RoundStep(s, rs[0]), rs[1..]))
  }

  lemma RoundKeepsMaxSize(s: State, r: Round)
    requires r.sent <= |s.buffered|
    ensures RoundStep(s, r).maxSize == s.maxSize
  {
  }

  /** Delivery is in production order over every run whose rounds all leave order intact. */
  lemma {:induction false} DeliveredInOrder(s: State, rs: seq<Round>)
    requires InOrder(s) && s.maxSize >= 1 && Feasible(s, rs) && Patient(s, rs)
    ensures InOrder(Run(s, rs)) && Increasing(Run(s, rs).delivered)
    decreases |rs|
  {
    hide RoundStep;
    if rs == [] {
      IncreasingPrefix(s.delivered + s.buffered, |s.delivered|);
      assert (s.delivered + s.buffered)[..|s.delivered|] == s.delivered;
    } else {
      RoundKeepsOrderIff(s, rs[0]);
      RoundKeepsMaxSize(s, rs[0]);
      DeliveredInOrder(RoundStep(s, rs[0]), rs[1..]);
    }
  }

  /** As written the loop can deliver out of order: the first batch fails, its retry fails while
      the second batch gets through, and the retry after that delivers the first batch late. */
  lemma DeliveryCanReorder()
    ensures var fails, slips, works := Round(0, 0, 0, 0, false), Round(0, 0, 0, 0, true), Round(0, 0, 0, 1, true);
            var s1 := RoundStep(Start(300, 10), fails);
            var s2 := RoundStep(s1, slips);
            && |s2.buffered| == 1
            && RoundStep(s2, works).delivered == [Batch(1, 0), Batch(0, 0), Batch(2, 0)]
  {
    var fails, slips := Round(0, 0, 0, 0, false), Round(0, 0, 0, 0, true);
    var s1 := RoundStep(Start(300, 10), fails);
    assert s1 == Start(300, 10).(produced := [Batch(0, 0)], buffered := [Batch(0, 0)]);
    var s2 := RoundStep(s1, slips);
    assert s2.buffered == [Batch(0, 0)] && s2.delivered == [Batch(1, 0)];
    assert s2.produced == [Batch(0, 0), Batch(1, 0)];
  }
}
