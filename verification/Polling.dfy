/** What one pass of the polling loop does, for an lcore on its own and in any run of all lcores. */
module Polling {
  import opened Options
  import opened PortMask
  import opened LcoreLists
  import opened ForwarderSetup
  import opened Forwarding

  // ---------- an lcore on its own ----------

  /** An lcore's list and table, where it starts, and what the outside decides at each of its steps. */
  datatype Trace = Trace(dst: seq<nat>, list: seq<Port>, start: View, choices: seq<Choice>)

  ghost predicate Sees(t: Trace, v: View) {
    |t.dst| == MAX_ETHPORTS && OwnLocal(t.dst, t.list, v.local) && HasKeys(t.dst, t.list, v.mem)
  }

  ghost function StepAlone(t: Trace, v: View, choice: Choice): (r: View)
    requires Sees(t, v)
    ensures Sees(t, r)
  {
    StepWritesOwn(t.dst, t.list, v.local, v.mem, choice);
    var (local, mem) := LocalStep(t.dst, t.list, v.local, v.mem, choice);
    View(local, mem)
  }

  /** After `n` steps. */
  ghost function At(t: Trace, n: nat): (v: View)
    requires Sees(t, t.start) && n <= |t.choices|
    ensures Sees(t, v)
  {
    if n == 0 then t.start else StepAlone(t, At(t, n - 1), t.choices[n - 1])
  }

  /** At `pc` with no increment left to do. */
  ghost predicate Reached(t: Trace, n: nat, pc: Pc)
    requires Sees(t, t.start)
  {
    n <= |t.choices| && At(t, n).local == Local(pc, [], None)
  }

  // ---------- what happens to a port between two steps ----------

  ghost function ReceivedOn(t: Trace, n: nat, p: nat): seq<Packet>
    requires Sees(t, t.start) && n <= |t.choices| && p in RxKeys(t.list)
  {
    At(t, n).mem.rx[p].received
  }

  ghost function TxAt(t: Trace, n: nat, d: nat): TxSide
    requires Sees(t, t.start) && n <= |t.choices| && d in TxKeys(t.dst, t.list)
  {
    At(t, n).mem.tx[d]
  }

  /** Nothing was received on any port of the list. */
  ghost predicate NothingReceived(t: Trace, n: nat, m: nat)
    requires Sees(t, t.start) && n <= |t.choices| && m <= |t.choices|
  {
    forall p :: p in RxKeys(t.list) ==> ReceivedOn(t, m, p) == ReceivedOn(t, n, p)
  }

  /** Buffer and hand-over history are as before. */
  ghost predicate Untouched(before: TxSide, after: TxSide) {
    after.buffer == before.buffer && after.handed == before.handed
  }

  ghost predicate TxUntouched(t: Trace, n: nat, m: nat, except: set<nat>)
    requires Sees(t, t.start) && n <= |t.choices| && m <= |t.choices|
  {
    forall d :: d in TxKeys(t.dst, t.list) && d !in except ==> Untouched(TxAt(t, n, d), TxAt(t, m, d))
  }

  /** The buffer was handed over. */
  ghost predicate Drained(before: TxSide, after: TxSide) {
    after.buffer == [] && PacketsOf(after.handed) == PacketsOf(before.handed) + before.buffer
  }

  /** The packets went into the buffer; as soon as it held a full burst, that was handed over. */
  ghost predicate Batched(before: TxSide, after: TxSide, packets: seq<Packet>) {
    var all := before.buffer + packets;
    if |all| < MAX_PKT_BURST then after.buffer == all && after.handed == before.handed
    else
      && after.buffer == all[MAX_PKT_BURST..]
      && PacketsOf(after.handed) == PacketsOf(before.handed) + all[..MAX_PKT_BURST]
  }

  ghost function FirstBurst(arrived: seq<Packet>): seq<Packet> {
    if |arrived| <= MAX_PKT_BURST then arrived else arrived[..MAX_PKT_BURST]
  }

  // ---------- increments ----------

  /** Doing the pending increments takes two steps each, and touches neither packets nor buffers. */
  lemma {:induction false} AddsDone(t: Trace, n: nat, pc: Pc, adds: seq<Add>)
    requires Sees(t, t.start) && n + 2 * |adds| <= |t.choices| && At(t, n).local == Local(pc, adds, None)
    ensures Reached(t, n + 2 * |adds|, pc)
    ensures NothingReceived(t, n, n + 2 * |adds|) && TxUntouched(t, n, n + 2 * |adds|, {})
    decreases |adds|
  {
    hide RxKeys, TxKeys, At, OwnLocal, HasKeys;
    if adds == [] {
    } else {
      OneAdd(t, n, pc, adds);
      AddsDone(t, n + 2, pc, adds[1..]);
      assert n + 2 + 2 * |adds[1..]| == n + 2 * |adds|;
    }
  }

  lemma OneAdd(t: Trace, n: nat, pc: Pc, adds: seq<Add>)
    requires Sees(t, t.start) && n + 2 <= |t.choices| && adds != [] && At(t, n).local == Local(pc, adds, None)
    ensures At(t, n + 2).local == Local(pc, adds[1..], None)
    ensures NothingReceived(t, n, n + 2) && TxUntouched(t, n, n + 2, {})
  {
    hide RxKeys, TxKeys;
    var v, v1 := At(t, n), At(t, n + 1);
    assert v1.local == Local(pc, adds, Some(Load(v.mem, adds[0].cell))) && v1.mem == v.mem;
  }

  // ---------- the drain pass ----------

  const DRAIN_STEPS: nat := 5

  /** One buffer is flushed. */
  lemma DrainPort(t: Trace, n: nat, i: nat) returns (m: nat)
    requires Sees(t, t.start) && i < |t.list| && n + DRAIN_STEPS <= |t.choices| && Reached(t, n, Drain(i))
    ensures n < m <= n + DRAIN_STEPS && Reached(t, m, Drain(i + 1))
    ensures NothingReceived(t, n, m) && TxUntouched(t, n, m, {t.dst[t.list[i]]})
    ensures t.dst[t.list[i]] in TxKeys(t.dst, t.list)
    ensures Drained(TxAt(t, n, t.dst[t.list[i]]), TxAt(t, m, t.dst[t.list[i]]))
  {
    var d, choice := t.dst[t.list[i]], t.choices[n];
    assert t.list[i] in t.list;
    var side := TxAt(t, n, d);
    var adds := FlushAdds(d, |side.buffer|, choice.accepted);
    assert At(t, n + 1).local == Local(Drain(i + 1), adds, None);
    assert TxAt(t, n + 1, d) == Flush(side, choice.accepted);
    FlushMoves(side, choice.accepted);
    m := n + 1 + 2 * |adds|;
    AddsDone(t, n + 1, Drain(i + 1), adds);
  }

  lemma FlushMoves(side: TxSide, accepted: nat)
    ensures Drained(side, Flush(side, accepted))
  {
    SentFates(side.buffer, accepted);
    var fates := Fates(side.buffer, accepted);
    assert PacketsOf(side.handed + fates) == PacketsOf(side.handed) + PacketsOf(fates);
  }

  lemma {:induction false} DrainRest(t: Trace, n: nat, i: nat) returns (m: nat)
    requires Sees(t, t.start) && ListOk(t.dst, t.list) && i <= |t.list|
    requires n + DRAIN_STEPS * (|t.list| - i) <= |t.choices| && Reached(t, n, Drain(i))
    ensures n <= m <= n + DRAIN_STEPS * (|t.list| - i) && Reached(t, m, Drain(|t.list|)) && NothingReceived(t, n, m)
    ensures forall j :: 0 <= j < |t.list| ==>
              && t.dst[t.list[j]] in TxKeys(t.dst, t.list)
              && var before, after := TxAt(t, n, t.dst[t.list[j]]), TxAt(t, m, t.dst[t.list[j]]);
                 if i <= j then Drained(before, after) else Untouched(before, after)
    decreases |t.list| - i
  {
    hide At, Drained, RxKeys, OwnLocal, HasKeys;
    forall j | 0 <= j < |t.list| ensures t.dst[t.list[j]] in TxKeys(t.dst, t.list) { assert t.list[j] in t.list; }
    hide TxKeys;
    m := n;
    if i < |t.list| {
      var k := DrainPort(t, n, i);
      m := DrainRest(t, k, i + 1);
      forall j | 0 <= j < |t.list|
        ensures var before, after := TxAt(t, n, t.dst[t.list[j]]), TxAt(t, m, t.dst[t.list[j]]);
                if i <= j then Drained(before, after) else Untouched(before, after)
      {
        var d := t.dst[t.list[j]];
        if j != i { assert d != t.dst[t.list[i]] && Untouched(TxAt(t, n, d), TxAt(t, k, d)); }
        ThenDrained(TxAt(t, n, d), TxAt(t, k, d), TxAt(t, m, d));
      }
    }
  }

  lemma ThenDrained(a: TxSide, b: TxSide, c: TxSide)
    ensures Untouched(a, b) && Drained(b, c) ==> Drained(a, c)
    ensures Drained(a, b) && Untouched(b, c) ==> Drained(a, c)
  {
  }

  // ---------- forwarding a burst ----------

  /** What the step that puts one packet into the buffer does, and the increments it leaves. */
  lemma ForwardStep(t: Trace, n: nat, i: nat, burst: seq<Packet>) returns (adds: seq<Add>)
    requires Sees(t, t.start) && i < |t.list| && t.dst[t.list[i]] in TxKeys(t.dst, t.list)
    requires n + 1 <= |t.choices| && burst != [] && Reached(t, n, Forward(i, burst))
    requires |TxAt(t, n, t.dst[t.list[i]]).buffer| < MAX_PKT_BURST
    ensures |adds| <= 2 && At(t, n + 1).local == Local(Forward(i, burst[1..]), adds, None)
    ensures NothingReceived(t, n, n + 1) && TxUntouched(t, n, n + 1, {t.dst[t.list[i]]})
    ensures Batched(TxAt(t, n, t.dst[t.list[i]]), TxAt(t, n + 1, t.dst[t.list[i]]), [burst[0]])
  {
    var d, choice := t.dst[t.list[i]], t.choices[n];
    var side := TxAt(t, n, d).(buffer := TxAt(t, n, d).buffer + [burst[0]]);
    hide Batched, RxKeys, TxKeys;
    if |side.buffer| < MAX_PKT_BURST {
      adds := [];
      assert TxAt(t, n + 1, d) == side;
    } else {
      adds := FlushAdds(d, |side.buffer|, choice.accepted);
      assert TxAt(t, n + 1, d) == Flush(side, choice.accepted);
    }
    BufferedOne(TxAt(t, n, d), side, burst[0], choice.accepted);
  }

  lemma BufferedOne(before: TxSide, side: TxSide, packet: Packet, accepted: nat)
    requires side == before.(buffer := before.buffer + [packet]) && |before.buffer| < MAX_PKT_BURST
    ensures Batched(before, if |side.buffer| < MAX_PKT_BURST then side else Flush(side, accepted), [packet])
  {
    FlushMoves(side, accepted);
  }

  /** One packet goes into the buffer, which is handed over if it is full. */
  lemma ForwardOne(t: Trace, n: nat, i: nat, burst: seq<Packet>) returns (m: nat)
    requires Sees(t, t.start) && i < |t.list| && t.dst[t.list[i]] in TxKeys(t.dst, t.list)
    requires n + 5 <= |t.choices| && burst != [] && Reached(t, n, Forward(i, burst))
    requires |TxAt(t, n, t.dst[t.list[i]]).buffer| < MAX_PKT_BURST
    ensures n < m <= n + 5 && Reached(t, m, Forward(i, burst[1..]))
    ensures NothingReceived(t, n, m) && TxUntouched(t, n, m, {t.dst[t.list[i]]})
    ensures Batched(TxAt(t, n, t.dst[t.list[i]]), TxAt(t, m, t.dst[t.list[i]]), [burst[0]])
  {
    hide At, RxKeys, TxKeys, OwnLocal, HasKeys;
    var adds := ForwardStep(t, n, i, burst);
    AddsDone(t, n + 1, Forward(i, burst[1..]), adds);
    m := n + 1 + 2 * |adds|;
  }

  lemma BatchedNext(a: TxSide, b: TxSide, c: TxSide, first: Packet, rest: seq<Packet>)
    requires Batched(a, b, [first]) && Batched(b, c, rest) && |a.buffer| + 1 + |rest| < 2 * MAX_PKT_BURST
    ensures Batched(a, c, [first] + rest)
  {
    var all := a.buffer + ([first] + rest);
    assert all == a.buffer + [first] + rest;
    if |a.buffer| + 1 >= MAX_PKT_BURST {
      assert (a.buffer + [first])[MAX_PKT_BURST..] + rest == all[MAX_PKT_BURST..];
    }
  }

  lemma {:induction false} ForwardRest(t: Trace, n: nat, i: nat, burst: seq<Packet>) returns (m: nat)
    requires Sees(t, t.start) && i < |t.list| && t.dst[t.list[i]] in TxKeys(t.dst, t.list)
    requires n + 5 * |burst| + 1 <= |t.choices| && Reached(t, n, Forward(i, burst))
    requires |TxAt(t, n, t.dst[t.list[i]]).buffer| < MAX_PKT_BURST && |burst| <= MAX_PKT_BURST
    ensures n < m <= n + 5 * |burst| + 1 && Reached(t, m, Poll(i + 1))
    ensures NothingReceived(t, n, m) && TxUntouched(t, n, m, {t.dst[t.list[i]]})
    ensures Batched(TxAt(t, n, t.dst[t.list[i]]), TxAt(t, m, t.dst[t.list[i]]), burst)
    decreases |burst|
  {
    hide RxKeys, TxKeys, OwnLocal, HasKeys;
    if burst == [] {
      m := n + 1;
      assert At(t, m).mem == At(t, n).mem && At(t, m).local == Local(Poll(i + 1), [], None);
    } else {
      hide At, Batched;
      var d := t.dst[t.list[i]];
      var k := ForwardOne(t, n, i, burst);
      BatchedOne(TxAt(t, n, d), TxAt(t, k, d), burst[0]);
      m := ForwardRest(t, k, i, burst[1..]);
      BatchedNext(TxAt(t, n, d), TxAt(t, k, d), TxAt(t, m, d), burst[0], burst[1..]);
      assert [burst[0]] + burst[1..] == burst;
    }
  }

  lemma BatchedOne(a: TxSide, b: TxSide, packet: Packet)
    requires Batched(a, b, [packet]) && |a.buffer| < MAX_PKT_BURST
    ensures |b.buffer| < MAX_PKT_BURST
  {
  }

  // ---------- polling the ports ----------

  const POLL_STEPS: nat := 5 * MAX_PKT_BURST + 4

  /** What becomes of the `j`-th port between steps `n` and `m`: it is polled once, at step `k`. */
  ghost predicate Served(t: Trace, n: nat, m: nat, k: nat, j: nat)
    requires Sees(t, t.start) && m <= |t.choices| && j < |t.list|
  {
    && t.list[j] in RxKeys(t.list) && t.dst[t.list[j]] in TxKeys(t.dst, t.list)
    && n <= k < m && Reached(t, k, Poll(j))
    && var p, d, burst := t.list[j], t.dst[t.list[j]], FirstBurst(t.choices[k].arrived);
       && ReceivedOn(t, k, p) == ReceivedOn(t, n, p)
       && ReceivedOn(t, k + 1, p) == ReceivedOn(t, n, p) + burst
       && ReceivedOn(t, m, p) == ReceivedOn(t, n, p) + burst
       && Untouched(TxAt(t, n, d), TxAt(t, k, d))
       && Batched(TxAt(t, n, d), TxAt(t, m, d), burst)
  }

  /** One port is polled, and what it gave is forwarded. */
  lemma PollPort(t: Trace, n: nat, i: nat) returns (m: nat)
    requires Sees(t, t.start) && i < |t.list| && t.dst[t.list[i]] in TxKeys(t.dst, t.list)
    requires n + POLL_STEPS <= |t.choices| && Reached(t, n, Poll(i))
    requires |TxAt(t, n, t.dst[t.list[i]]).buffer| < MAX_PKT_BURST
    ensures n < m <= n + POLL_STEPS && Reached(t, m, Poll(i + 1)) && Served(t, n, m, n, i)
    ensures forall p :: p in RxKeys(t.list) && p != t.list[i] ==> ReceivedOn(t, m, p) == ReceivedOn(t, n, p)
    ensures TxUntouched(t, n, m, {t.dst[t.list[i]]})
  {
    var p, burst := t.list[i], FirstBurst(t.choices[n].arrived);
    var adds := [Add(RxCount(p), |burst|)];
    PollStep(t, n, i);
    AddsDone(t, n + 1, Forward(i, burst), adds);
    hide At;
    m := ForwardRest(t, n + 3, i, burst);
  }

  lemma PollStep(t: Trace, n: nat, i: nat)
    requires Sees(t, t.start) && i < |t.list| && n + 1 <= |t.choices| && Reached(t, n, Poll(i))
    ensures var p, burst := t.list[i], FirstBurst(t.choices[n].arrived);
            && At(t, n + 1).local == Local(Forward(i, burst), [Add(RxCount(p), |burst|)], None)
            && p in RxKeys(t.list) && ReceivedOn(t, n + 1, p) == ReceivedOn(t, n, p) + burst
    ensures forall p :: p in RxKeys(t.list) && p != t.list[i] ==> ReceivedOn(t, n + 1, p) == ReceivedOn(t, n, p)
    ensures TxUntouched(t, n, n + 1, {})
  {
    var arrived := t.choices[n].arrived;
    assert arrived[..Min(|arrived|, MAX_PKT_BURST)] == FirstBurst(arrived);
  }

  ghost predicate BuffersFit(t: Trace, n: nat)
    requires Sees(t, t.start) && n <= |t.choices|
  {
    forall d :: d in TxKeys(t.dst, t.list) ==> |TxAt(t, n, d).buffer| < MAX_PKT_BURST
  }

  ghost predicate Rising(times: seq<nat>) {
    forall a, b :: 0 <= a < b < |times| ==> times[a] < times[b]
  }

  /** From the `i`-th port on, every port is polled once, in order. */
  lemma {:induction false} PollRest(t: Trace, n: nat, i: nat, done: seq<nat>) returns (m: nat, times: seq<nat>)
    requires Sees(t, t.start) && ListOk(t.dst, t.list) && i == |done| <= |t.list|
    requires n + POLL_STEPS * (|t.list| - i) <= |t.choices| && Reached(t, n, Poll(i)) && BuffersFit(t, n)
    requires Rising(done) && forall a :: 0 <= a < i ==> done[a] < n
    ensures n <= m <= n + POLL_STEPS * (|t.list| - i) && Reached(t, m, Poll(|t.list|))
    ensures |times| == |t.list| && times[..i] == done && Rising(times) && (i < |t.list| ==> times[i] == n)
    ensures forall j :: i <= j < |t.list| ==> Served(t, n, m, times[j], j)
    ensures forall j :: 0 <= j < i ==> Passed(t, n, m, j)
    decreases |t.list| - i
  {
    hide At, Batched, Served, Passed, RxKeys, TxKeys, OwnLocal, HasKeys;
    m, times := n, done;
    if i == |t.list| {
      forall j | 0 <= j < i ensures Passed(t, n, n, j) { PassedNothing(t, n, j); }
    } else {
      OwnPorts(t);
      var k := PollPort(t, n, i);
      FitsAfter(t, n, k, i);
      m, times := PollRest(t, k, i + 1, done + [n]);
      assert times[..i] == times[..i + 1][..i] == done && times[i] == times[..i + 1][i];
      forall j | 0 <= j < |t.list| && j != i ensures Passed(t, n, k, j) { PassedBy(t, n, k, i, j); }
      forall j | 0 <= j < i ensures Passed(t, n, m, j) { PassedTwice(t, n, k, m, j); }
      forall j | i <= j < |t.list| ensures Served(t, n, m, times[j], j) {
        if j == i {
          ServedBefore(t, n, k, m, i);
        } else {
          ServedLater(t, n, k, m, times[j], j);
        }
      }
    }
  }

  /** Nothing happens to the port. */
  ghost predicate Passed(t: Trace, n: nat, m: nat, j: nat)
    requires Sees(t, t.start) && n <= |t.choices| && m <= |t.choices| && j < |t.list|
  {
    && t.list[j] in RxKeys(t.list) && t.dst[t.list[j]] in TxKeys(t.dst, t.list)
    && ReceivedOn(t, m, t.list[j]) == ReceivedOn(t, n, t.list[j])
    && Untouched(TxAt(t, n, t.dst[t.list[j]]), TxAt(t, m, t.dst[t.list[j]]))
  }

  lemma OwnPorts(t: Trace)
    requires |t.dst| == MAX_ETHPORTS
    ensures forall j :: 0 <= j < |t.list| ==> t.list[j] in RxKeys(t.list) && t.dst[t.list[j]] in TxKeys(t.dst, t.list)
  {
    forall j | 0 <= j < |t.list| ensures t.list[j] in RxKeys(t.list) && t.dst[t.list[j]] in TxKeys(t.dst, t.list) {
      assert t.list[j] in t.list;
    }
  }

  lemma FitsAfter(t: Trace, n: nat, m: nat, i: nat)
    requires Sees(t, t.start) && i < |t.list| && m <= |t.choices| && Served(t, n, m, n, i) && BuffersFit(t, n)
    requires TxUntouched(t, n, m, {t.dst[t.list[i]]})
    ensures BuffersFit(t, m)
  {
    hide At, RxKeys, TxKeys, OwnLocal, HasKeys;
  }

  lemma PassedNothing(t: Trace, n: nat, j: nat)
    requires Sees(t, t.start) && n <= |t.choices| && j < |t.list|
    ensures Passed(t, n, n, j)
  {
    OwnPorts(t);
    hide At, RxKeys, TxKeys, OwnLocal, HasKeys;
  }

  /** Serving one port passes by all others. */
  lemma PassedBy(t: Trace, n: nat, m: nat, i: nat, j: nat)
    requires Sees(t, t.start) && n <= |t.choices| && m <= |t.choices| && ListOk(t.dst, t.list)
    requires i < |t.list| && j < |t.list| && i != j
    requires forall p :: p in RxKeys(t.list) && p != t.list[i] ==> ReceivedOn(t, m, p) == ReceivedOn(t, n, p)
    requires TxUntouched(t, n, m, {t.dst[t.list[i]]})
    ensures Passed(t, n, m, j)
  {
    OwnPorts(t);
    hide At, RxKeys, TxKeys, OwnLocal, HasKeys, ReceivedOn;
    assert t.list[j] != t.list[i] && t.dst[t.list[j]] != t.dst[t.list[i]];
  }

  lemma PassedTwice(t: Trace, n: nat, k: nat, m: nat, j: nat)
    requires Sees(t, t.start) && n <= |t.choices| && k <= |t.choices| && m <= |t.choices| && j < |t.list|
    requires Passed(t, n, k, j) && Passed(t, k, m, j)
    ensures Passed(t, n, m, j)
  {
    hide At, RxKeys, TxKeys, OwnLocal, HasKeys;
  }

  lemma ServedBefore(t: Trace, n: nat, k: nat, m: nat, j: nat)
    requires Sees(t, t.start) && k <= m <= |t.choices| && j < |t.list|
    requires Served(t, n, k, n, j) && Passed(t, k, m, j)
    ensures Served(t, n, m, n, j)
  {
    hide At, RxKeys, TxKeys, OwnLocal, HasKeys;
  }

  lemma ServedLater(t: Trace, n: nat, k: nat, m: nat, time: nat, j: nat)
    requires Sees(t, t.start) && n <= k <= m <= |t.choices| && j < |t.list|
    requires Passed(t, n, k, j) && Served(t, k, m, time, j)
    ensures Served(t, n, m, time, j)
  {
    hide At, RxKeys, TxKeys, OwnLocal, HasKeys;
  }

  // ---------- a pass ----------

  function PassSteps(ports: nat): nat {
    3 + (DRAIN_STEPS + POLL_STEPS) * ports
  }

  /** Before the polls, all buffers are handed over if it is time to drain, and nothing happens otherwise. */
  ghost predicate ReadyToPoll(t: Trace, polls: nat, drain: bool)
    requires Sees(t, t.start) && polls <= |t.choices|
  {
    && Reached(t, polls, Poll(0)) && NothingReceived(t, 0, polls)
    && forall d :: d in TxKeys(t.dst, t.list) ==>
                     if drain then Drained(TxAt(t, 0, d), TxAt(t, polls, d))
                     else Untouched(TxAt(t, 0, d), TxAt(t, polls, d))
  }

  lemma DrainAll(t: Trace) returns (polls: nat)
    requires Sees(t, t.start) && ListOk(t.dst, t.list) && t.list != [] && Reached(t, 0, Top)
    requires PassSteps(|t.list|) <= |t.choices| && !t.choices[0].quit
    ensures polls <= 2 + DRAIN_STEPS * |t.list| && ReadyToPoll(t, polls, t.choices[0].drain)
  {
    if t.choices[0].drain {
      assert Reached(t, 1, Drain(0)) && At(t, 1).mem == At(t, 0).mem;
      var m := DrainRest(t, 1, 0);
      polls := m + 1;
      DrainEnds(t, m);
      hide At, Drained;
      forall d | d in TxKeys(t.dst, t.list) ensures Drained(TxAt(t, 0, d), TxAt(t, polls, d)) {
        var p :| p in t.list && d == t.dst[p];
        var j :| 0 <= j < |t.list| && t.list[j] == p;
        assert Drained(TxAt(t, 1, t.dst[t.list[j]]), TxAt(t, m, t.dst[t.list[j]]));
      }
    } else {
      polls := 1;
    }
  }

  lemma DrainEnds(t: Trace, n: nat)
    requires Sees(t, t.start) && n + 1 <= |t.choices| && Reached(t, n, Drain(|t.list|))
    ensures Reached(t, n + 1, Poll(0)) && At(t, n + 1).mem == At(t, n).mem
  {
  }

  /**
   * From the top of the loop, unless told to quit, an lcore is back at the top after a bounded number of steps. By
   * then it has polled every port of its list once, in order, and forwarded what it got; if it was time to drain, all
   * buffers were handed over before the first poll.
   */
  lemma Pass(t: Trace) returns (polls: nat, end: nat, times: seq<nat>)
    requires Sees(t, t.start) && ListOk(t.dst, t.list) && t.list != [] && Reached(t, 0, Top) && BuffersFit(t, 0)
    requires PassSteps(|t.list|) <= |t.choices| && !t.choices[0].quit
    ensures polls <= end <= PassSteps(|t.list|) && Reached(t, end, Top)
    ensures ReadyToPoll(t, polls, t.choices[0].drain)
    ensures |times| == |t.list| && times[0] == polls && Rising(times)
    ensures forall j :: 0 <= j < |t.list| ==> Served(t, polls, end, times[j], j)
  {
    hide At, Served, Passed, ReadyToPoll, BuffersFit, OwnLocal, HasKeys;
    polls := DrainAll(t);
    ReadyFits(t, polls, t.choices[0].drain);
    var m;
    m, times := PollRest(t, polls, 0, []);
    end := m + 1;
    PollEnds(t, m);
    forall j | 0 <= j < |t.list| ensures Served(t, polls, end, times[j], j) {
      ServedToEnd(t, polls, m, times[j], j);
    }
  }

  lemma ReadyFits(t: Trace, polls: nat, drain: bool)
    requires Sees(t, t.start) && polls <= |t.choices| && BuffersFit(t, 0) && ReadyToPoll(t, polls, drain)
    ensures BuffersFit(t, polls) && Reached(t, polls, Poll(0))
  {
    hide At, RxKeys, TxKeys, OwnLocal, HasKeys;
  }

  lemma PollEnds(t: Trace, n: nat)
    requires Sees(t, t.start) && n + 1 <= |t.choices| && Reached(t, n, Poll(|t.list|))
    ensures Reached(t, n + 1, Top) && At(t, n + 1).mem == At(t, n).mem
  {
  }

  lemma ServedToEnd(t: Trace, n: nat, m: nat, time: nat, j: nat)
    requires Sees(t, t.start) && m + 1 <= |t.choices| && j < |t.list| && Served(t, n, m, time, j)
    requires At(t, m + 1).mem == At(t, m).mem
    ensures Served(t, n, m + 1, time, j)
  {
    hide At, RxKeys, TxKeys, OwnLocal, HasKeys;
  }

  /** Once told to quit at the top of the loop, an lcore changes nothing any more. */
  lemma {:induction false} QuitStops(t: Trace, n: nat)
    requires Sees(t, t.start) && Reached(t, 0, Top) && 1 <= n <= |t.choices| && t.choices[0].quit
    ensures Reached(t, n, Stopped) && At(t, n).mem == t.start.mem
  {
    if n > 1 { QuitStops(t, n - 1); }
  }

  // ---------- in any run of all lcores ----------

  /** What the outside decides at the steps of one lcore. */
  ghost function ChoicesOf(events: seq<Event>, c: nat): seq<Choice> {
    if events == [] then []
    else
      var last := events[|events| - 1];
      ChoicesOf(events[..|events| - 1], c) + if last.lcore == c then [last.choice] else []
  }

  ghost function TraceOf(cfg: Config, s: State, events: seq<Event>, c: nat): Trace
    requires WellFormed(cfg, s) && c < |cfg.lists|
  {
    Trace(cfg.dst, cfg.lists[c], ViewOf(cfg, s, c), ChoicesOf(events, c))
  }

  lemma {:induction false} RunNext(cfg: Config, s: State, events: seq<Event>, e: Event)
    requires WellFormed(cfg, s)
    ensures Run(cfg, s, events + [e]) == Step(cfg, Run(cfg, s, events), e)
    decreases |events|
  {
    hide Step, WellFormed;
    if events == [] {
      assert [] + [e] == [e] && [e][1..] == [];
    } else {
      StepWellFormed(cfg, s, events[0]);
      assert (events + [e])[0] == events[0] && (events + [e])[1..] == events[1..] + [e];
      RunNext(cfg, Step(cfg, s, events[0]), events[1..], e);
    }
  }

  lemma StartSees(cfg: Config, s: State, c: nat, choices: seq<Choice>)
    requires WellFormed(cfg, s) && c < |cfg.lists|
    ensures var t := Trace(cfg.dst, cfg.lists[c], ViewOf(cfg, s, c), choices); Sees(t, t.start)
  {
  }

  /** In any run, what an lcore sees is what it would see on its own, given the same choices. */
  lemma {:induction false} OwnTrace(cfg: Config, s: State, events: seq<Event>, c: nat, choices: seq<Choice>)
    requires Configured(cfg) && WellFormed(cfg, s) && c < |cfg.lists| && ChoicesOf(events, c) <= choices
    ensures var t := Trace(cfg.dst, cfg.lists[c], ViewOf(cfg, s, c), choices);
            && Sees(t, t.start)
            && At(t, |ChoicesOf(events, c)|) == ViewOf(cfg, Run(cfg, s, events), c)
    decreases |events|
  {
    hide Configured, LocalStep;
    StartSees(cfg, s, c, choices);
    var t := Trace(cfg.dst, cfg.lists[c], ViewOf(cfg, s, c), choices);
    if events != [] {
      var front, last := events[..|events| - 1], events[|events| - 1];
      assert events == front + [last];
      RunNext(cfg, s, front, last);
      OwnTrace(cfg, s, front, c, choices);
      var s' := Run(cfg, s, front);
      if last.lcore == c {
        OwnStep(cfg, s', last, t);
        assert choices[|ChoicesOf(front, c)|] == last.choice;
      } else {
        StepInvisible(cfg, s', last, c);
      }
    }
  }

  lemma OwnStep(cfg: Config, s: State, e: Event, t: Trace)
    requires WellFormed(cfg, s) && e.lcore < |cfg.lists| && t.dst == cfg.dst && t.list == cfg.lists[e.lcore]
    ensures Sees(t, ViewOf(cfg, s, e.lcore))
    ensures ViewOf(cfg, Step(cfg, s, e), e.lcore) == StepAlone(t, ViewOf(cfg, s, e.lcore), e.choice)
  {
    StepReadsOwn(cfg.dst, t.list, s.lcores[e.lcore], s.mem, e.choice);
  }

  /** The event that is the `n`-th step of lcore `c`. */
  lemma {:induction false} NthOwn(events: seq<Event>, c: nat, n: nat) returns (i: nat)
    requires n < |ChoicesOf(events, c)|
    ensures i < |events| && events[i] == Event(c, ChoicesOf(events, c)[n])
    ensures ChoicesOf(events[..i], c) == ChoicesOf(events, c)[..n]
    ensures ChoicesOf(events[..i + 1], c) == ChoicesOf(events, c)[..n + 1]
    decreases |events|
  {
    var last := |events| - 1;
    var front := events[..last];
    if n < |ChoicesOf(front, c)| {
      i := NthOwn(front, c, n);
      assert front[..i] == events[..i] && front[..i + 1] == events[..i + 1];
    } else {
      i := last;
      assert events[..last + 1] == events;
    }
  }

  lemma StartFits(cfg: Config, s: State, c: nat, t: Trace)
    requires Configured(cfg) && AllInv(cfg, s) && c < |cfg.lists| && s.lcores[c] == Local(Top, [], None)
    requires t.dst == cfg.dst && t.list == cfg.lists[c] && t.start == ViewOf(cfg, s, c)
    ensures Sees(t, t.start) && ListOk(t.dst, t.list) && Reached(t, 0, Top) && BuffersFit(t, 0)
  {
    var list := cfg.lists[c];
    assert LcoreInv(cfg.dst, list, s.lcores[c], s.mem);
    forall d | d in TxKeys(t.dst, t.list) ensures |TxAt(t, 0, d).buffer| < MAX_PKT_BURST {
      var p :| p in list && d == cfg.dst[p];
      var j :| 0 <= j < |list| && list[j] == p;
      assert PortInv(s.lcores[c], s.mem.rx[list[j]], s.mem.tx[cfg.dst[list[j]]], list[j], cfg.dst[list[j]], j);
    }
  }

  /** What the lcore sees of its `j`-th port after `n` of its own steps is in the memory shared by all. */
  lemma SeenInRun(cfg: Config, s: State, events: seq<Event>, c: nat, i: nat, n: nat, j: nat)
    requires Configured(cfg) && WellFormed(cfg, s) && c < |cfg.lists| && i <= |events| && n <= |ChoicesOf(events, c)|
    requires ChoicesOf(events[..i], c) == ChoicesOf(events, c)[..n] && j < |cfg.lists[c]|
    ensures var t, r := TraceOf(cfg, s, events, c), Run(cfg, s, events[..i]);
            Sees(t, t.start) && r.lcores[c] == At(t, n).local && ShowsPort(t, r, n, j)
  {
    StartSees(cfg, s, c, ChoicesOf(events, c));
    OwnPorts(TraceOf(cfg, s, events, c));
    hide Configured, At, RxKeys, TxKeys;
    OwnTrace(cfg, s, events[..i], c, ChoicesOf(events, c));
  }

  /**
   * Between the states before the `i`-th event, after it and after `e` events: the event polls port `p`, for the first
   * time; its packets are then forwarded to `d`, and no others are received on `p`.
   */
  ghost predicate PollsOnce(s: State, before: State, after: State, end: State, p: nat, d: nat, choice: Choice) {
    var burst := FirstBurst(choice.arrived);
    && p in s.mem.rx && p in before.mem.rx && p in after.mem.rx && p in end.mem.rx
    && before.mem.rx[p].received == s.mem.rx[p].received
    && after.mem.rx[p].received == s.mem.rx[p].received + burst
    && end.mem.rx[p].received == s.mem.rx[p].received + burst
    && d in before.mem.tx && d in end.mem.tx && Batched(before.mem.tx[d], end.mem.tx[d], burst)
  }

  /** All of the buffer was handed over if it was time to drain, and nothing happened otherwise. */
  ghost predicate DrainedFirst(s: State, before: State, d: nat, drain: bool) {
    && d in s.mem.tx && d in before.mem.tx
    && if drain then Drained(s.mem.tx[d], before.mem.tx[d]) else Untouched(s.mem.tx[d], before.mem.tx[d])
  }

  /** How many of the events are needed for the first `n` steps of lcore `c`. */
  lemma StepsOf(events: seq<Event>, c: nat, n: nat) returns (i: nat)
    requires n <= |ChoicesOf(events, c)|
    ensures i <= |events| && ChoicesOf(events[..i], c) == ChoicesOf(events, c)[..n]
  {
    if n == 0 {
      i := 0;
    } else {
      var k := NthOwn(events, c, n - 1);
      i := k + 1;
    }
  }

  /**
   * The `i`-th event polls the `j`-th port of lcore `c`, the only time in the first `e` events, and its packets are
   * forwarded; if it was time to drain, the buffer was handed over before. The lcore is then at the top of its loop.
   */
  ghost predicate ServedInRun(cfg: Config, s: State, events: seq<Event>, c: nat, j: nat, i: nat, e: nat, drain: bool)
    requires WellFormed(cfg, s) && c < |cfg.lists| && j < |cfg.lists[c]|
  {
    && i < |events| && events[i].lcore == c && e <= |events|
    && var p, d := cfg.lists[c][j], cfg.dst[cfg.lists[c][j]];
       var before, after, end := Run(cfg, s, events[..i]), Run(cfg, s, events[..i + 1]), Run(cfg, s, events[..e]);
       && end.lcores[c] == Local(Top, [], None)
       && PollsOnce(s, before, after, end, p, d, events[i].choice) && DrainedFirst(s, before, d, drain)
  }

  /**
   * However the lcores interleave: an lcore that starts at the top of its loop without being told to quit, and takes
   * enough steps, polls each of its ports and forwards what it got before it is back at the top.
   */
  lemma EveryPortServed(cfg: Config, s: State, events: seq<Event>, c: nat, j: nat) returns (i: nat, e: nat)
    requires Configured(cfg) && AllInv(cfg, s) && c < |cfg.lists| && j < |cfg.lists[c]|
    requires s.lcores[c] == Local(Top, [], None)
    requires PassSteps(|cfg.lists[c]|) <= |ChoicesOf(events, c)| && !ChoicesOf(events, c)[0].quit
    ensures ServedInRun(cfg, s, events, c, j, i, e, ChoicesOf(events, c)[0].drain)
  {
    var time, end;
    i, e, time, end := PassInRun(cfg, s, events, c, j);
    hide Sees, At, ListOk, Configured, Run, LcoreInv, PollsOnce, DrainedFirst, ChoicesOf, Reached;
    AllSeen(cfg, s, events, c, j, i, e, time, end);
    PolledAsSeen(TraceOf(cfg, s, events, c), s, Run(cfg, s, events[..i]), Run(cfg, s, events[..i + 1]),
                 Run(cfg, s, events[..e]), j, time, end);
  }

  lemma AllSeen(cfg: Config, s: State, events: seq<Event>, c: nat, j: nat, i: nat, e: nat, time: nat, end: nat)
    requires Configured(cfg) && WellFormed(cfg, s) && c < |cfg.lists| && j < |cfg.lists[c]|
    requires time < end <= |ChoicesOf(events, c)| && i < |events| && e <= |events|
    requires ChoicesOf(events[..0], c) == ChoicesOf(events, c)[..0]
    requires ChoicesOf(events[..i], c) == ChoicesOf(events, c)[..time]
    requires ChoicesOf(events[..i + 1], c) == ChoicesOf(events, c)[..time + 1]
    requires ChoicesOf(events[..e], c) == ChoicesOf(events, c)[..end]
    ensures var t := TraceOf(cfg, s, events, c);
            && Sees(t, t.start) && ShowsPort(t, s, 0, j) && ShowsPort(t, Run(cfg, s, events[..i]), time, j)
            && ShowsPort(t, Run(cfg, s, events[..i + 1]), time + 1, j)
            && ShowsPort(t, Run(cfg, s, events[..e]), end, j)
            && Run(cfg, s, events[..e]).lcores[c] == At(t, end).local
  {
    hide Sees, At, ListOk, Configured, Run, ShowsPort;
    SeenInRun(cfg, s, events, c, 0, 0, j);
    SeenInRun(cfg, s, events, c, i, time, j);
    SeenInRun(cfg, s, events, c, i + 1, time + 1, j);
    SeenInRun(cfg, s, events, c, e, end, j);
    assert Run(cfg, s, events[..0]) == s by { NoEvents(cfg, s, events); }
  }

  /** The memory shows port and destination as the lcore sees them. */
  ghost predicate ShowsPort(t: Trace, r: State, n: nat, j: nat)
    requires Sees(t, t.start) && n <= |t.choices| && j < |t.list|
  {
    && t.list[j] in RxKeys(t.list) && t.list[j] in r.mem.rx
    && r.mem.rx[t.list[j]].received == ReceivedOn(t, n, t.list[j])
    && t.dst[t.list[j]] in TxKeys(t.dst, t.list) && t.dst[t.list[j]] in r.mem.tx
    && r.mem.tx[t.dst[t.list[j]]] == TxAt(t, n, t.dst[t.list[j]])
  }

  lemma PolledAsSeen(t: Trace, s: State, before: State, after: State, end: State, j: nat, time: nat, last: nat)
    requires Sees(t, t.start) && j < |t.list| && time < last <= |t.choices| && PortPolled(t, last, time, j)
    requires ShowsPort(t, s, 0, j) && ShowsPort(t, before, time, j)
    requires ShowsPort(t, after, time + 1, j) && ShowsPort(t, end, last, j)
    ensures PollsOnce(s, before, after, end, t.list[j], t.dst[t.list[j]], t.choices[time])
    ensures DrainedFirst(s, before, t.dst[t.list[j]], t.choices[0].drain)
  {
    hide At, RxKeys, TxKeys, OwnLocal, HasKeys, Batched, Drained, Untouched, FirstBurst;
  }

  /** The pass of one lcore, and the events at which it polls its `j`-th port and is back at the top. */
  lemma PassInRun(cfg: Config, s: State, events: seq<Event>, c: nat, j: nat)
    returns (i: nat, e: nat, time: nat, end: nat)
    requires Configured(cfg) && AllInv(cfg, s) && c < |cfg.lists| && j < |cfg.lists[c]|
    requires s.lcores[c] == Local(Top, [], None)
    requires PassSteps(|cfg.lists[c]|) <= |ChoicesOf(events, c)| && !ChoicesOf(events, c)[0].quit
    ensures time < end <= |ChoicesOf(events, c)| && i < |events| && e <= |events|
    ensures events[i] == Event(c, ChoicesOf(events, c)[time])
    ensures ChoicesOf(events[..0], c) == ChoicesOf(events, c)[..0]
    ensures ChoicesOf(events[..i], c) == ChoicesOf(events, c)[..time]
    ensures ChoicesOf(events[..i + 1], c) == ChoicesOf(events, c)[..time + 1]
    ensures ChoicesOf(events[..e], c) == ChoicesOf(events, c)[..end]
    ensures var t := TraceOf(cfg, s, events, c);
            Sees(t, t.start) && At(t, end).local == Local(Top, [], None) && PortPolled(t, end, time, j)
  {
    var t := TraceOf(cfg, s, events, c);
    StartFits(cfg, s, c, t);
    hide At, RxKeys, TxKeys, OwnLocal, HasKeys, ListOk, Configured, BuffersFit, ReadyToPoll, Served, Rising, LcoreInv,
         PortPolled;
    var polls, times;
    polls, end, times := Pass(t);
    time := times[j];
    PolledThen(t, polls, end, time, j);
    i := NthOwn(events, c, time);
    e := StepsOf(events, c, end);
  }

  lemma NoEvents(cfg: Config, s: State, events: seq<Event>)
    requires WellFormed(cfg, s)
    ensures Run(cfg, s, events[..0]) == s
  {
  }

  /** What becomes of the `j`-th port in a whole pass. */
  ghost predicate PortPolled(t: Trace, end: nat, time: nat, j: nat)
    requires Sees(t, t.start) && end <= |t.choices| && j < |t.list| && time < end
  {
    && t.list[j] in RxKeys(t.list) && t.dst[t.list[j]] in TxKeys(t.dst, t.list)
    && var p, d, burst := t.list[j], t.dst[t.list[j]], FirstBurst(t.choices[time].arrived);
       && ReceivedOn(t, time, p) == ReceivedOn(t, 0, p)
       && ReceivedOn(t, time + 1, p) == ReceivedOn(t, 0, p) + burst
       && ReceivedOn(t, end, p) == ReceivedOn(t, 0, p) + burst
       && Batched(TxAt(t, time, d), TxAt(t, end, d), burst)
       && if t.choices[0].drain then Drained(TxAt(t, 0, d), TxAt(t, time, d))
          else Untouched(TxAt(t, 0, d), TxAt(t, time, d))
  }

  lemma PolledThen(t: Trace, polls: nat, end: nat, time: nat, j: nat)
    requires Sees(t, t.start) && end <= |t.choices| && j < |t.list| && t.choices != []
    requires polls <= end && ReadyToPoll(t, polls, t.choices[0].drain) && Served(t, polls, end, time, j)
    ensures time < end && PortPolled(t, end, time, j)
  {
    hide At, RxKeys, TxKeys, OwnLocal, HasKeys;
  }
}
