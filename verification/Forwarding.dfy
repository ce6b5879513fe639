/** The packet forwarder at work: lcores poll, buffer and drain; a load and a store increment a shared counter. */
module Forwarding {
  import opened Options
  import opened PortMask
  import opened LcoreLists
  import opened ForwarderSetup

  const MAX_PKT_BURST: nat := 32

  datatype Packet = Packet(id: int)

  /** What became of a packet given to the NIC by a flush. */
  datatype Fate = Fate(packet: Packet, sent: bool)

  /** `received` and `handed` record the history; the rest is the forwarder's own data. */
  datatype RxSide = RxSide(count: nat, received: seq<Packet>)
  datatype TxSide = TxSide(tx: nat, dropped: nat, buffer: seq<Packet>, handed: seq<Fate>)

  datatype Memory = Memory(rx: map<nat, RxSide>, tx: map<nat, TxSide>)

  datatype Cell = RxCount(port: nat) | TxCount(port: nat) | DroppedCount(port: nat)

  datatype Add = Add(cell: Cell, amount: nat)

  datatype Pc = Top | Drain(i: nat) | Poll(i: nat) | Forward(i: nat, burst: seq<Packet>) | Stopped

  /** An lcore: where it is, the increments it still has to do, and the value loaded for the first of them. */
  datatype Local = Local(pc: Pc, adds: seq<Add>, loaded: Option<nat>)

  /** What the outside decides in one step: quit, time to drain, packets the NIC takes, packets that arrived. */
  datatype Choice = Choice(quit: bool, drain: bool, accepted: nat, arrived: seq<Packet>)

  // ---------- one lcore ----------

  function RxKeys(list: seq<Port>): set<nat> {
    set p | p in list
  }

  function TxKeys(dst: seq<nat>, list: seq<Port>): set<nat>
    requires |dst| == MAX_ETHPORTS
  {
    set p | p in list :: dst[p]
  }

  predicate OwnCell(dst: seq<nat>, list: seq<Port>, cell: Cell)
    requires |dst| == MAX_ETHPORTS
  {
    match cell
    case RxCount(p) => p in RxKeys(list)
    case TxCount(p) => p in TxKeys(dst, list)
    case DroppedCount(p) => p in TxKeys(dst, list)
  }

  /** The lcore only ever points into its own list and its own counters. */
  predicate OwnLocal(dst: seq<nat>, list: seq<Port>, local: Local)
    requires |dst| == MAX_ETHPORTS
  {
    && (forall k :: 0 <= k < |local.adds| ==> OwnCell(dst, list, local.adds[k].cell))
    && match local.pc
       case Drain(i) => i <= |list|
       case Poll(i) => i <= |list|
       case Forward(i, _) => i < |list|
       case _ => true
  }

  predicate HasKeys(dst: seq<nat>, list: seq<Port>, mem: Memory)
    requires |dst| == MAX_ETHPORTS
  {
    RxKeys(list) <= mem.rx.Keys && TxKeys(dst, list) <= mem.tx.Keys
  }

  function Load(mem: Memory, cell: Cell): nat
    requires if cell.RxCount? then cell.port in mem.rx else cell.port in mem.tx
  {
    match cell
    case RxCount(p) => mem.rx[p].count
    case TxCount(p) => mem.tx[p].tx
    case DroppedCount(p) => mem.tx[p].dropped
  }

  function Store(mem: Memory, cell: Cell, value: nat): Memory
    requires if cell.RxCount? then cell.port in mem.rx else cell.port in mem.tx
  {
    match cell
    case RxCount(p) => mem.(rx := mem.rx[p := mem.rx[p].(count := value)])
    case TxCount(p) => mem.(tx := mem.tx[p := mem.tx[p].(tx := value)])
    case DroppedCount(p) => mem.(tx := mem.tx[p := mem.tx[p].(dropped := value)])
  }

  function Min(a: nat, b: nat): nat {
    if a < b then a else b
  }

  function Fates(packets: seq<Packet>, accepted: nat): (fates: seq<Fate>)
    ensures |fates| == |packets|
  {
    seq(|packets|, k requires 0 <= k < |packets| => Fate(packets[k], k < accepted))
  }

  /** Hand the buffer to the NIC: it takes the first packets, the error callback counts the others. */
  function Flush(side: TxSide, accepted: nat): TxSide {
    side.(buffer := [], handed := side.handed + Fates(side.buffer, accepted))
  }

  /** The increments after a flush of `n` packets: first the callback's, then the caller's. */
  function FlushAdds(port: nat, n: nat, accepted: nat): seq<Add> {
    var sent := Min(n, accepted);
    (if sent < n then [Add(DroppedCount(port), n - sent)] else [])
    + (if sent > 0 then [Add(TxCount(port), sent)] else [])
  }

  /** One step of one lcore on the memory it sees. */
  function LocalStep(dst: seq<nat>, list: seq<Port>, local: Local, mem: Memory, choice: Choice): (Local, Memory)
    requires |dst| == MAX_ETHPORTS && OwnLocal(dst, list, local) && HasKeys(dst, list, mem)
  {
    if local.adds != [] then
      var add := local.adds[0];
      match local.loaded
      case None => (local.(loaded := Some(Load(mem, add.cell))), mem)
      case Some(value) =>
        (local.(adds := local.adds[1..], loaded := None), Store(mem, add.cell, value + add.amount))
    else
      match local.pc
      case Stopped => (local, mem)
      case Top =>
        (local.(pc := if list == [] || choice.quit then Stopped else if choice.drain then Drain(0) else Poll(0)), mem)
      case Drain(i) =>
        if i == |list| then (local.(pc := Poll(0)), mem)
        else
          var d := dst[list[i]];
          var side := mem.tx[d];
          (Local(Drain(i + 1), FlushAdds(d, |side.buffer|, choice.accepted), None),
           mem.(tx := mem.tx[d := Flush(side, choice.accepted)]))
      case Poll(i) =>
        if i == |list| then (local.(pc := Top), mem)
        else
          var p := list[i];
          var burst := choice.arrived[..Min(|choice.arrived|, MAX_PKT_BURST)];
          (Local(Forward(i, burst), [Add(RxCount(p), |burst|)], None),
           mem.(rx := mem.rx[p := mem.rx[p].(received := mem.rx[p].received + burst)]))
      case Forward(i, burst) =>
        if burst == [] then (local.(pc := Poll(i + 1)), mem)
        else
          var d := dst[list[i]];
          var side := mem.tx[d].(buffer := mem.tx[d].buffer + [burst[0]]);
          if |side.buffer| < MAX_PKT_BURST then
            (local.(pc := Forward(i, burst[1..])), mem.(tx := mem.tx[d := side]))
          else
            (Local(Forward(i, burst[1..]), FlushAdds(d, |side.buffer|, choice.accepted), None),
             mem.(tx := mem.tx[d := Flush(side, choice.accepted)]))
  }

  // ---------- what one lcore keeps ----------

  function PacketsOf(fates: seq<Fate>): (packets: seq<Packet>)
    ensures |packets| == |fates|
  {
    seq(|fates|, k requires 0 <= k < |fates| => fates[k].packet)
  }

  function SentCount(fates: seq<Fate>): (n: nat)
    ensures n <= |fates|
  {
    if fates == [] then 0
    else SentCount(fates[..|fates| - 1]) + if fates[|fates| - 1].sent then 1 else 0
  }

  /** Increments of `cell` that are still to be done. */
  function Pending(adds: seq<Add>, cell: Cell): nat {
    if adds == [] then 0 else (if adds[0].cell == cell then adds[0].amount else 0) + Pending(adds[1..], cell)
  }

  /** The packets of the current burst that came from the `j`-th port and are not yet forwarded. */
  function BurstOf(local: Local, j: nat): seq<Packet> {
    if local.pc.Forward? && local.pc.i == j then local.pc.burst else []
  }

  /** Received packets are handed over, buffered or in the burst, in order; counters lag only by pending increments. */
  ghost predicate PortInv(local: Local, rx: RxSide, tx: TxSide, p: nat, d: nat, j: nat) {
    && PacketsOf(tx.handed) + tx.buffer + BurstOf(local, j) == rx.received
    && rx.count + Pending(local.adds, RxCount(p)) == |rx.received|
    && tx.tx + Pending(local.adds, TxCount(d)) == SentCount(tx.handed)
    && tx.dropped + Pending(local.adds, DroppedCount(d)) == |tx.handed| - SentCount(tx.handed)
    && |tx.buffer| < MAX_PKT_BURST
  }

  ghost predicate ListOk(dst: seq<nat>, list: seq<Port>) {
    && |dst| == MAX_ETHPORTS && NoDuplicates(list)
    && forall i, j :: 0 <= i < j < |list| ==> dst[list[i]] != dst[list[j]]
  }

  ghost predicate LcoreInv(dst: seq<nat>, list: seq<Port>, local: Local, mem: Memory) {
    && ListOk(dst, list) && OwnLocal(dst, list, local) && HasKeys(dst, list, mem)
    && (forall j :: 0 <= j < |list| ==> PortInv(local, mem.rx[list[j]], mem.tx[dst[list[j]]], list[j], dst[list[j]], j))
    && (local.loaded.Some? ==> local.adds != [] && local.loaded.value == Load(mem, local.adds[0].cell))
    && (local.pc.Drain? ==> forall j :: 0 <= j < local.pc.i ==> mem.tx[dst[list[j]]].buffer == [])
  }

  lemma {:induction false} SentAppend(a: seq<Fate>, b: seq<Fate>)
    ensures SentCount(a + b) == SentCount(a) + SentCount(b)
  {
    if b == [] {
      assert a + b == a;
    } else {
      SentAppend(a, b[..|b| - 1]);
      assert (a + b)[..|a + b| - 1] == a + b[..|b| - 1];
    }
  }

  lemma {:induction false} SentFates(packets: seq<Packet>, accepted: nat)
    ensures SentCount(Fates(packets, accepted)) == Min(|packets|, accepted)
    ensures PacketsOf(Fates(packets, accepted)) == packets
  {
    if packets != [] {
      SentFates(packets[..|packets| - 1], accepted);
      assert Fates(packets, accepted)[..|packets| - 1] == Fates(packets[..|packets| - 1], accepted);
    }
  }

  /** A flush of `n` packets leaves increments that add up to `n`: those taken are sent, the rest dropped. */
  lemma FlushPending(port: nat, n: nat, accepted: nat, cell: Cell)
    ensures Pending(FlushAdds(port, n, accepted), cell) ==
            if cell == TxCount(port) then Min(n, accepted)
            else if cell == DroppedCount(port) then n - Min(n, accepted) else 0
  {
    var sent := Min(n, accepted);
    var drop, count := Add(DroppedCount(port), n - sent), Add(TxCount(port), sent);
    if sent < n && sent > 0 {
      assert FlushAdds(port, n, accepted) == [drop, count];
      assert [drop, count][1..] == [count] && [count][1..] == [];
      assert Pending([count], cell) == if cell == count.cell then sent else 0;
    } else if sent < n {
      assert FlushAdds(port, n, accepted) == [drop] && [drop][1..] == [];
    } else if sent > 0 {
      assert FlushAdds(port, n, accepted) == [count] && [count][1..] == [];
    }
  }

  /** A flush moves the buffer to the hand-over history; its increments make up the difference. */
  lemma FlushInv(local: Local, local': Local, rx: RxSide, tx: TxSide, p: nat, d: nat, j: nat, accepted: nat)
    requires PacketsOf(tx.handed) + tx.buffer + BurstOf(local', j) == rx.received
    requires rx.count == |rx.received| && tx.tx == SentCount(tx.handed)
    requires tx.dropped == |tx.handed| - SentCount(tx.handed)
    requires local'.adds == FlushAdds(d, |tx.buffer|, accepted)
    ensures PortInv(local', rx, Flush(tx, accepted), p, d, j)
  {
    var fates := Fates(tx.buffer, accepted);
    SentAppend(tx.handed, fates);
    SentFates(tx.buffer, accepted);
    assert PacketsOf(tx.handed + fates) == PacketsOf(tx.handed) + PacketsOf(fates);
    FlushPending(d, |tx.buffer|, accepted, TxCount(d));
    FlushPending(d, |tx.buffer|, accepted, DroppedCount(d));
    FlushPending(d, |tx.buffer|, accepted, RxCount(p));
  }

  ghost function After(dst: seq<nat>, list: seq<Port>, local: Local, mem: Memory, choice: Choice): (Local, Memory)
    requires LcoreInv(dst, list, local, mem)
  {
    LocalStep(dst, list, local, mem, choice)
  }

  /** Storing a loaded value plus the amount moves the amount from pending to counted. */
  lemma StoreKeepsPort(local: Local, mem: Memory, p: nat, d: nat, j: nat)
    requires local.adds != [] && local.loaded.Some? && p in mem.rx && d in mem.tx
    requires var cell := local.adds[0].cell;
             && (if cell.RxCount? then cell.port in mem.rx else cell.port in mem.tx)
             && local.loaded.value == Load(mem, cell)
    requires PortInv(local, mem.rx[p], mem.tx[d], p, d, j)
    ensures var mem' := Store(mem, local.adds[0].cell, local.loaded.value + local.adds[0].amount);
            && p in mem'.rx && d in mem'.tx && mem'.tx[d].buffer == mem.tx[d].buffer
            && PortInv(local.(adds := local.adds[1..], loaded := None), mem'.rx[p], mem'.tx[d], p, d, j)
  {
  }

  lemma AddStepInv(dst: seq<nat>, list: seq<Port>, local: Local, mem: Memory, choice: Choice)
    requires LcoreInv(dst, list, local, mem) && local.adds != []
    ensures LcoreInv(dst, list, After(dst, list, local, mem, choice).0, After(dst, list, local, mem, choice).1)
  {
    hide PortInv;
    var (local', mem') := After(dst, list, local, mem, choice);
    forall j | 0 <= j < |list|
      ensures PortInv(local', mem'.rx[list[j]], mem'.tx[dst[list[j]]], list[j], dst[list[j]], j)
      ensures mem'.tx[dst[list[j]]].buffer == mem.tx[dst[list[j]]].buffer
    {
      assert PortInv(local, mem.rx[list[j]], mem.tx[dst[list[j]]], list[j], dst[list[j]], j);
      if local.loaded.Some? {
        StoreKeepsPort(local, mem, list[j], dst[list[j]], j);
      } else {
        LoadKeepsPort(local, local', mem.rx[list[j]], mem.tx[dst[list[j]]], list[j], dst[list[j]], j);
      }
    }
  }

  lemma LoadKeepsPort(local: Local, local': Local, rx: RxSide, tx: TxSide, p: nat, d: nat, j: nat)
    requires PortInv(local, rx, tx, p, d, j) && local'.pc == local.pc && local'.adds == local.adds
    ensures PortInv(local', rx, tx, p, d, j)
  {
  }

  lemma DrainStepInv(dst: seq<nat>, list: seq<Port>, local: Local, mem: Memory, choice: Choice)
    requires LcoreInv(dst, list, local, mem) && local.adds == [] && local.pc.Drain? && local.pc.i < |list|
    ensures LcoreInv(dst, list, After(dst, list, local, mem, choice).0, After(dst, list, local, mem, choice).1)
  {
    var (local', mem') := After(dst, list, local, mem, choice);
    var i := local.pc.i;
    forall j | 0 <= j < |list|
      ensures PortInv(local', mem'.rx[list[j]], mem'.tx[dst[list[j]]], list[j], dst[list[j]], j)
    {
      var p, d := list[j], dst[list[j]];
      assert PortInv(local, mem.rx[p], mem.tx[d], p, d, j);
      if j == i {
        FlushInv(local, local', mem.rx[p], mem.tx[d], p, d, j, choice.accepted);
      } else {
        var n := |mem.tx[dst[list[i]]].buffer|;
        FlushPending(dst[list[i]], n, choice.accepted, TxCount(d));
        FlushPending(dst[list[i]], n, choice.accepted, DroppedCount(d));
        FlushPending(dst[list[i]], n, choice.accepted, RxCount(p));
      }
    }
  }

  lemma PollStepInv(dst: seq<nat>, list: seq<Port>, local: Local, mem: Memory, choice: Choice)
    requires LcoreInv(dst, list, local, mem) && local.adds == [] && local.pc.Poll? && local.pc.i < |list|
    ensures LcoreInv(dst, list, After(dst, list, local, mem, choice).0, After(dst, list, local, mem, choice).1)
  {
    var (local', mem') := After(dst, list, local, mem, choice);
    forall j | 0 <= j < |list|
      ensures PortInv(local', mem'.rx[list[j]], mem'.tx[dst[list[j]]], list[j], dst[list[j]], j)
    {
      var p, d := list[j], dst[list[j]];
      assert PortInv(local, mem.rx[p], mem.tx[d], p, d, j);
      assert local'.adds[1..] == [];
    }
  }

  /** Buffering the first packet of the burst, flushing if that fills the buffer. */
  lemma ForwardOwnPort(dst: seq<nat>, list: seq<Port>, local: Local, mem: Memory, choice: Choice)
    requires LcoreInv(dst, list, local, mem) && local.adds == [] && local.pc.Forward? && local.pc.burst != []
    ensures var (local', mem') := After(dst, list, local, mem, choice);
            var p, d := list[local.pc.i], dst[list[local.pc.i]];
            PortInv(local', mem'.rx[p], mem'.tx[d], p, d, local.pc.i)
  {
    var (local', mem') := After(dst, list, local, mem, choice);
    var i, burst := local.pc.i, local.pc.burst;
    var p, d := list[i], dst[list[i]];
    var fuller := mem.tx[d].(buffer := mem.tx[d].buffer + [burst[0]]);
    assert PortInv(local, mem.rx[p], mem.tx[d], p, d, i);
    assert PacketsOf(fuller.handed) + fuller.buffer + burst[1..] == mem.rx[p].received;
    if |fuller.buffer| >= MAX_PKT_BURST {
      FlushInv(local, local', mem.rx[p], fuller, p, d, i, choice.accepted);
    }
  }

  lemma ForwardStepInv(dst: seq<nat>, list: seq<Port>, local: Local, mem: Memory, choice: Choice)
    requires LcoreInv(dst, list, local, mem) && local.adds == [] && local.pc.Forward? && local.pc.burst != []
    ensures LcoreInv(dst, list, After(dst, list, local, mem, choice).0, After(dst, list, local, mem, choice).1)
  {
    hide PortInv, Flush;
    var (local', mem') := After(dst, list, local, mem, choice);
    var i := local.pc.i;
    var n := |mem.tx[dst[list[i]]].buffer| + 1;
    ForwardOwnPort(dst, list, local, mem, choice);
    forall j | 0 <= j < |list|
      ensures PortInv(local', mem'.rx[list[j]], mem'.tx[dst[list[j]]], list[j], dst[list[j]], j)
    {
      if j != i {
        var p, d := list[j], dst[list[j]];
        assert PortInv(local, mem.rx[p], mem.tx[d], p, d, j);
        if n >= MAX_PKT_BURST {
          FlushPending(dst[list[i]], n, choice.accepted, TxCount(d));
          FlushPending(dst[list[i]], n, choice.accepted, DroppedCount(d));
          FlushPending(dst[list[i]], n, choice.accepted, RxCount(p));
        }
        OtherPort(local, local', mem.rx[p], mem.tx[d], p, d, j);
      }
    }
  }

  lemma OtherPort(local: Local, local': Local, rx: RxSide, tx: TxSide, p: nat, d: nat, j: nat)
    requires PortInv(local, rx, tx, p, d, j) && local.adds == [] && BurstOf(local', j) == BurstOf(local, j)
    requires Pending(local'.adds, RxCount(p)) == Pending(local'.adds, TxCount(d)) == 0
    requires Pending(local'.adds, DroppedCount(d)) == 0
    ensures PortInv(local', rx, tx, p, d, j)
  {
  }

  /** Every step of an lcore keeps its invariant. */
  lemma LocalStepInv(dst: seq<nat>, list: seq<Port>, local: Local, mem: Memory, choice: Choice)
    requires LcoreInv(dst, list, local, mem)
    ensures LcoreInv(dst, list, After(dst, list, local, mem, choice).0, After(dst, list, local, mem, choice).1)
  {
    if local.adds != [] {
      AddStepInv(dst, list, local, mem, choice);
    } else if local.pc.Drain? && local.pc.i < |list| {
      DrainStepInv(dst, list, local, mem, choice);
    } else if local.pc.Poll? && local.pc.i < |list| {
      PollStepInv(dst, list, local, mem, choice);
    } else if local.pc.Forward? && local.pc.burst != [] {
      ForwardStepInv(dst, list, local, mem, choice);
    } else {
      var (local', mem') := After(dst, list, local, mem, choice);
      forall j | 0 <= j < |list|
        ensures PortInv(local', mem'.rx[list[j]], mem'.tx[dst[list[j]]], list[j], dst[list[j]], j)
      {
        assert PortInv(local, mem.rx[list[j]], mem.tx[dst[list[j]]], list[j], dst[list[j]], j);
      }
    }
  }

  // ---------- all lcores together ----------

  /** The table and the lists the start-up code left behind. */
  datatype Config = Config(dst: seq<nat>, lists: PortLists, enabled: set<Port>)

  ghost predicate Configured(cfg: Config) {
    |cfg.lists| == MAX_LCORE && ValidConfig(cfg.dst, cfg.lists, cfg.enabled)
  }

  datatype State = State(mem: Memory, lcores: seq<Local>)

  /** One lcore takes one step. */
  datatype Event = Event(lcore: nat, choice: Choice)

  ghost predicate WellFormed(cfg: Config, s: State) {
    && |cfg.dst| == MAX_ETHPORTS && |s.lcores| == |cfg.lists|
    && forall c :: 0 <= c < |cfg.lists| ==>
                     OwnLocal(cfg.dst, cfg.lists[c], s.lcores[c]) && HasKeys(cfg.dst, cfg.lists[c], s.mem)
  }

  ghost function Step(cfg: Config, s: State, e: Event): State
    requires WellFormed(cfg, s)
  {
    if e.lcore >= |cfg.lists| then s
    else
      var (local, mem) := LocalStep(cfg.dst, cfg.lists[e.lcore], s.lcores[e.lcore], s.mem, e.choice);
      State(mem, s.lcores[e.lcore := local])
  }

  // ---------- each lcore writes only what it owns ----------

  ghost function Restrict(dst: seq<nat>, list: seq<Port>, mem: Memory): Memory
    requires |dst| == MAX_ETHPORTS
  {
    Memory(map p | p in mem.rx && p in RxKeys(list) :: mem.rx[p],
           map d | d in mem.tx && d in TxKeys(dst, list) :: mem.tx[d])
  }

  /** What a step leaves alone: every cell outside the lcore's own ports and their destinations. */
  ghost predicate OnlyOwn(dst: seq<nat>, list: seq<Port>, before: Memory, after: Memory)
    requires |dst| == MAX_ETHPORTS
  {
    && before.rx.Keys == after.rx.Keys && before.tx.Keys == after.tx.Keys
    && (forall p :: p in before.rx && p !in RxKeys(list) ==> after.rx[p] == before.rx[p])
    && (forall d :: d in before.tx && d !in TxKeys(dst, list) ==> after.tx[d] == before.tx[d])
  }

  /** A step stays well-formed and writes only the lcore's own cells. */
  lemma StepWritesOwn(dst: seq<nat>, list: seq<Port>, local: Local, mem: Memory, choice: Choice)
    requires |dst| == MAX_ETHPORTS && OwnLocal(dst, list, local) && HasKeys(dst, list, mem)
    ensures var (local', mem') := LocalStep(dst, list, local, mem, choice);
            OwnLocal(dst, list, local') && HasKeys(dst, list, mem') && OnlyOwn(dst, list, mem, mem')
  {
  }

  lemma RestrictUpdates(dst: seq<nat>, list: seq<Port>, mem: Memory, p: nat, rx: RxSide, d: nat, tx: TxSide)
    requires |dst| == MAX_ETHPORTS
    ensures p in RxKeys(list) && p in mem.rx ==>
              Restrict(dst, list, mem.(rx := mem.rx[p := rx])) ==
              Restrict(dst, list, mem).(rx := Restrict(dst, list, mem).rx[p := rx])
    ensures d in TxKeys(dst, list) && d in mem.tx ==>
              Restrict(dst, list, mem.(tx := mem.tx[d := tx])) ==
              Restrict(dst, list, mem).(tx := Restrict(dst, list, mem).tx[d := tx])
  {
    var small := Restrict(dst, list, mem);
    if p in RxKeys(list) && p in mem.rx {
      assert Restrict(dst, list, mem.(rx := mem.rx[p := rx])).rx == small.rx[p := rx];
    }
    if d in TxKeys(dst, list) && d in mem.tx {
      assert Restrict(dst, list, mem.(tx := mem.tx[d := tx])).tx == small.tx[d := tx];
    }
  }

  /** A step depends only on the lcore's own cells. */
  lemma StepReadsOwn(dst: seq<nat>, list: seq<Port>, local: Local, mem: Memory, choice: Choice)
    requires |dst| == MAX_ETHPORTS && OwnLocal(dst, list, local) && HasKeys(dst, list, mem)
    ensures HasKeys(dst, list, Restrict(dst, list, mem))
    ensures var (local', mem') := LocalStep(dst, list, local, mem, choice);
            LocalStep(dst, list, local, Restrict(dst, list, mem), choice) == (local', Restrict(dst, list, mem'))
  {
    var mem' := LocalStep(dst, list, local, mem, choice).1;
    if local.adds != [] {
      var port := local.adds[0].cell.port;
      if local.adds[0].cell.RxCount? {
        RestrictUpdates(dst, list, mem, port, mem'.rx[port], 0, TxSide(0, 0, [], []));
      } else {
        RestrictUpdates(dst, list, mem, 0, RxSide(0, []), port, mem'.tx[port]);
      }
    } else if local.pc.Poll? && local.pc.i < |list| {
      RestrictUpdates(dst, list, mem, list[local.pc.i], mem'.rx[list[local.pc.i]], 0, TxSide(0, 0, [], []));
    } else if (local.pc.Drain? && local.pc.i < |list|) || local.pc.Forward? {
      var d := dst[list[local.pc.i]];
      RestrictUpdates(dst, list, mem, 0, RxSide(0, []), d, mem'.tx[d]);
    }
  }

  // ---------- single writer ----------

  /** No two lcores own a cell in common: each port has one poller, and destinations do not collide. */
  lemma OwnershipDisjoint(cfg: Config, c: nat, c': nat)
    requires Configured(cfg) && c < |cfg.lists| && c' < |cfg.lists| && c != c'
    ensures RxKeys(cfg.lists[c]) !! RxKeys(cfg.lists[c'])
    ensures TxKeys(cfg.dst, cfg.lists[c]) !! TxKeys(cfg.dst, cfg.lists[c'])
  {
    forall p, q | p in cfg.lists[c] && q in cfg.lists[c'] ensures p != q && cfg.dst[p] != cfg.dst[q] {
      DestinationsApart(cfg, p, q);
    }
  }

  lemma DestinationsApart(cfg: Config, p: Port, q: Port)
    requires Configured(cfg) && p in cfg.enabled && q in cfg.enabled
    ensures cfg.dst[p] == cfg.dst[q] ==> p == q
  {
    assert cfg.dst[cfg.dst[p]] == p && cfg.dst[cfg.dst[q]] == q;
  }

  lemma ListsOk(cfg: Config, c: nat)
    requires Configured(cfg) && c < |cfg.lists|
    ensures ListOk(cfg.dst, cfg.lists[c])
  {
    var list := cfg.lists[c];
    forall i, j | 0 <= i < j < |list| ensures cfg.dst[list[i]] != cfg.dst[list[j]] {
      assert list[i] in list && list[j] in list;
      DestinationsApart(cfg, list[i], list[j]);
    }
  }

  /** All an lcore can see of the state. */
  datatype View = View(local: Local, mem: Memory)

  ghost function ViewOf(cfg: Config, s: State, c: nat): View
    requires |cfg.dst| == MAX_ETHPORTS && |s.lcores| == |cfg.lists| && c < |cfg.lists|
  {
    View(s.lcores[c], Restrict(cfg.dst, cfg.lists[c], s.mem))
  }

  lemma StepWellFormed(cfg: Config, s: State, e: Event)
    requires WellFormed(cfg, s)
    ensures WellFormed(cfg, Step(cfg, s, e))
  {
    if e.lcore < |cfg.lists| {
      StepWritesOwn(cfg.dst, cfg.lists[e.lcore], s.lcores[e.lcore], s.mem, e.choice);
    }
  }

  lemma RestrictApart(dst: seq<nat>, list: seq<Port>, other: seq<Port>, before: Memory, after: Memory)
    requires |dst| == MAX_ETHPORTS && OnlyOwn(dst, list, before, after)
    requires RxKeys(list) !! RxKeys(other) && TxKeys(dst, list) !! TxKeys(dst, other)
    ensures Restrict(dst, other, after) == Restrict(dst, other, before)
  {
    hide RxKeys, TxKeys;
    assert Restrict(dst, other, after).rx == Restrict(dst, other, before).rx;
    assert Restrict(dst, other, after).tx == Restrict(dst, other, before).tx;
  }

  /** A step of one lcore is invisible to every other. */
  lemma StepInvisible(cfg: Config, s: State, e: Event, c: nat)
    requires Configured(cfg) && WellFormed(cfg, s) && c < |cfg.lists| && e.lcore != c
    ensures ViewOf(cfg, Step(cfg, s, e), c) == ViewOf(cfg, s, c)
  {
    hide LocalStep, Configured, OnlyOwn, Restrict, RxKeys, TxKeys, OwnLocal, HasKeys;
    if e.lcore < |cfg.lists| {
      StepWritesOwn(cfg.dst, cfg.lists[e.lcore], s.lcores[e.lcore], s.mem, e.choice);
      OwnershipDisjoint(cfg, e.lcore, c);
      RestrictApart(cfg.dst, cfg.lists[e.lcore], cfg.lists[c], s.mem, Step(cfg, s, e).mem);
    }
  }

  /** What an lcore's own step does to its view depends on the view alone. */
  lemma StepVisible(cfg: Config, s: State, s': State, e: Event)
    requires WellFormed(cfg, s) && WellFormed(cfg, s') && e.lcore < |cfg.lists|
    requires ViewOf(cfg, s, e.lcore) == ViewOf(cfg, s', e.lcore)
    ensures ViewOf(cfg, Step(cfg, s, e), e.lcore) == ViewOf(cfg, Step(cfg, s', e), e.lcore)
  {
    var list := cfg.lists[e.lcore];
    StepReadsOwn(cfg.dst, list, s.lcores[e.lcore], s.mem, e.choice);
    StepReadsOwn(cfg.dst, list, s'.lcores[e.lcore], s'.mem, e.choice);
  }

  // ---------- runs ----------

  ghost function Run(cfg: Config, s: State, events: seq<Event>): (r: State)
    requires WellFormed(cfg, s)
    ensures WellFormed(cfg, r)
    decreases |events|
  {
    if events == [] then s
    else
      StepWellFormed(cfg, s, events[0]);
      Run(cfg, Step(cfg, s, events[0]), events[1..])
  }

  /** The events of one lcore, in order. */
  ghost function Project(events: seq<Event>, c: nat): seq<Event> {
    if events == [] then []
    else (if events[0].lcore == c then [events[0]] else []) + Project(events[1..], c)
  }

  /** In any interleaving an lcore ends up where it would be had it run alone. */
  lemma {:induction false} RunsAlone(cfg: Config, s: State, s': State, events: seq<Event>, c: nat)
    requires Configured(cfg) && WellFormed(cfg, s) && WellFormed(cfg, s') && c < |cfg.lists|
    requires ViewOf(cfg, s, c) == ViewOf(cfg, s', c)
    ensures ViewOf(cfg, Run(cfg, s, events), c) == ViewOf(cfg, Run(cfg, s', Project(events, c)), c)
    decreases |events|
  {
    if events != [] {
      var e, rest := events[0], events[1..];
      StepWellFormed(cfg, s, e);
      if e.lcore == c {
        StepVisible(cfg, s, s', e);
        StepWellFormed(cfg, s', e);
        assert ([e] + Project(rest, c))[1..] == Project(rest, c);
        RunsAlone(cfg, Step(cfg, s, e), Step(cfg, s', e), rest, c);
      } else {
        StepInvisible(cfg, s, e, c);
        assert [] + Project(rest, c) == Project(rest, c);
        RunsAlone(cfg, Step(cfg, s, e), s', rest, c);
      }
    }
  }

  ghost predicate Unowned(cfg: Config, port: nat)
    requires |cfg.dst| == MAX_ETHPORTS
  {
    forall c :: 0 <= c < |cfg.lists| ==> port !in RxKeys(cfg.lists[c])
  }

  ghost predicate UnownedTx(cfg: Config, port: nat)
    requires |cfg.dst| == MAX_ETHPORTS
  {
    forall c :: 0 <= c < |cfg.lists| ==> port !in TxKeys(cfg.dst, cfg.lists[c])
  }

  lemma {:induction false} RunKeepsUnowned(cfg: Config, s: State, events: seq<Event>)
    requires WellFormed(cfg, s)
    ensures var r := Run(cfg, s, events);
            && r.mem.rx.Keys == s.mem.rx.Keys && r.mem.tx.Keys == s.mem.tx.Keys
            && (forall p :: p in s.mem.rx && Unowned(cfg, p) ==> r.mem.rx[p] == s.mem.rx[p])
            && (forall d :: d in s.mem.tx && UnownedTx(cfg, d) ==> r.mem.tx[d] == s.mem.tx[d])
    decreases |events|
  {
    if events != [] {
      var e := events[0];
      StepWellFormed(cfg, s, e);
      if e.lcore < |cfg.lists| {
        StepWritesOwn(cfg.dst, cfg.lists[e.lcore], s.lcores[e.lcore], s.mem, e.choice);
      }
      RunKeepsUnowned(cfg, Step(cfg, s, e), events[1..]);
    }
  }

  /** Two states agree when every lcore sees the same and nothing outside the owned cells differs. */
  lemma EqualByViews(cfg: Config, s: State, s': State)
    requires |cfg.dst| == MAX_ETHPORTS && |s.lcores| == |cfg.lists| == |s'.lcores|
    requires forall c :: 0 <= c < |cfg.lists| ==> ViewOf(cfg, s, c) == ViewOf(cfg, s', c)
    requires s.mem.rx.Keys == s'.mem.rx.Keys && s.mem.tx.Keys == s'.mem.tx.Keys
    requires forall p :: p in s.mem.rx && Unowned(cfg, p) ==> s.mem.rx[p] == s'.mem.rx[p]
    requires forall d :: d in s.mem.tx && UnownedTx(cfg, d) ==> s.mem.tx[d] == s'.mem.tx[d]
    ensures s == s'
  {
    forall p | p in s.mem.rx ensures s.mem.rx[p] == s'.mem.rx[p] {
      if !Unowned(cfg, p) {
        var c :| 0 <= c < |cfg.lists| && p in RxKeys(cfg.lists[c]);
        assert ViewOf(cfg, s, c).mem.rx[p] == ViewOf(cfg, s', c).mem.rx[p];
      }
    }
    forall d | d in s.mem.tx ensures s.mem.tx[d] == s'.mem.tx[d] {
      if !UnownedTx(cfg, d) {
        var c :| 0 <= c < |cfg.lists| && d in TxKeys(cfg.dst, cfg.lists[c]);
        assert ViewOf(cfg, s, c).mem.tx[d] == ViewOf(cfg, s', c).mem.tx[d];
      }
    }
    forall c | 0 <= c < |cfg.lists| ensures s.lcores[c] == s'.lcores[c] {
      assert ViewOf(cfg, s, c).local == ViewOf(cfg, s', c).local;
    }
  }

  /** The result of a run depends only on what each lcore does, not on how the lcores interleave. */
  lemma InterleavingIrrelevant(cfg: Config, s: State, events: seq<Event>, events': seq<Event>)
    requires Configured(cfg) && WellFormed(cfg, s)
    requires forall c :: 0 <= c < |cfg.lists| ==> Project(events, c) == Project(events', c)
    ensures Run(cfg, s, events) == Run(cfg, s, events')
  {
    forall c | 0 <= c < |cfg.lists|
      ensures ViewOf(cfg, Run(cfg, s, events), c) == ViewOf(cfg, Run(cfg, s, events'), c)
    {
      RunsAlone(cfg, s, s, events, c);
      RunsAlone(cfg, s, s, events', c);
    }
    RunKeepsUnowned(cfg, s, events);
    RunKeepsUnowned(cfg, s, events');
    EqualByViews(cfg, Run(cfg, s, events), Run(cfg, s, events'));
  }

  /** First everything lcore 0 does, then everything lcore 1 does, and so on. */
  ghost function Sequential(events: seq<Event>, lcores: nat): seq<Event> {
    if lcores == 0 then [] else Sequential(events, lcores - 1) + Project(events, lcores - 1)
  }

  lemma {:induction false} ProjectConcat(a: seq<Event>, b: seq<Event>, c: nat)
    ensures Project(a + b, c) == Project(a, c) + Project(b, c)
    decreases |a|
  {
    if a == [] {
      assert a + b == b;
    } else {
      assert (a + b)[0] == a[0] && (a + b)[1..] == a[1..] + b;
      ProjectConcat(a[1..], b, c);
      var head := if a[0].lcore == c then [a[0]] else [];
      assert Project(a, c) == head + Project(a[1..], c);
      assert Project(a + b, c) == head + (Project(a[1..], c) + Project(b, c));
    }
  }

  lemma {:induction false} ProjectProject(events: seq<Event>, c: nat, c': nat)
    ensures Project(Project(events, c), c') == if c == c' then Project(events, c) else []
    decreases |events|
  {
    if events != [] {
      ProjectProject(events[1..], c, c');
      ProjectConcat(if events[0].lcore == c then [events[0]] else [], Project(events[1..], c), c');
    }
  }

  lemma {:induction false} ProjectSequential(events: seq<Event>, lcores: nat, c: nat)
    ensures Project(Sequential(events, lcores), c) == if c < lcores then Project(events, c) else []
  {
    if lcores > 0 {
      ProjectSequential(events, lcores - 1, c);
      ProjectConcat(Sequential(events, lcores - 1), Project(events, lcores - 1), c);
      ProjectProject(events, lcores - 1, c);
    }
  }

  /** Any concurrent run ends exactly where the lcores running one after the other would. */
  lemma ConcurrentIsSequential(cfg: Config, s: State, events: seq<Event>)
    requires Configured(cfg) && WellFormed(cfg, s)
    ensures Run(cfg, s, events) == Run(cfg, s, Sequential(events, |cfg.lists|))
  {
    forall c | 0 <= c < |cfg.lists| { ProjectSequential(events, |cfg.lists|, c); }
    InterleavingIrrelevant(cfg, s, events, Sequential(events, |cfg.lists|));
  }

  // ---------- conservation in every run ----------

  ghost predicate AllInv(cfg: Config, s: State) {
    && WellFormed(cfg, s)
    && forall c :: 0 <= c < |cfg.lists| ==> LcoreInv(cfg.dst, cfg.lists[c], s.lcores[c], s.mem)
  }

  lemma InvFollowsView(dst: seq<nat>, list: seq<Port>, local: Local, mem: Memory, mem': Memory)
    requires LcoreInv(dst, list, local, mem) && HasKeys(dst, list, mem')
    requires Restrict(dst, list, mem) == Restrict(dst, list, mem')
    ensures LcoreInv(dst, list, local, mem')
  {
    forall p | p in RxKeys(list) ensures mem.rx[p] == mem'.rx[p] {
      assert Restrict(dst, list, mem).rx[p] == Restrict(dst, list, mem').rx[p];
    }
    forall d | d in TxKeys(dst, list) ensures mem.tx[d] == mem'.tx[d] {
      assert Restrict(dst, list, mem).tx[d] == Restrict(dst, list, mem').tx[d];
    }
    hide PortInv;
    forall j | 0 <= j < |list| ensures list[j] in RxKeys(list) && dst[list[j]] in TxKeys(dst, list) {}
  }

  lemma StepInv(cfg: Config, s: State, e: Event)
    requires Configured(cfg) && AllInv(cfg, s)
    ensures AllInv(cfg, Step(cfg, s, e))
  {
    hide LcoreInv;
    StepWellFormed(cfg, s, e);
    var s' := Step(cfg, s, e);
    forall c | 0 <= c < |cfg.lists|
      ensures LcoreInv(cfg.dst, cfg.lists[c], s'.lcores[c], s'.mem)
    {
      if c == e.lcore {
        LocalStepInv(cfg.dst, cfg.lists[c], s.lcores[c], s.mem, e.choice);
      } else {
        StepInvisible(cfg, s, e, c);
        assert ViewOf(cfg, s', c) == ViewOf(cfg, s, c);
        InvFollowsView(cfg.dst, cfg.lists[c], s.lcores[c], s.mem, s'.mem);
      }
    }
  }

  lemma {:induction false} RunInv(cfg: Config, s: State, events: seq<Event>)
    requires Configured(cfg) && AllInv(cfg, s)
    ensures AllInv(cfg, Run(cfg, s, events))
    decreases |events|
  {
    if events != [] {
      StepInv(cfg, s, events[0]);
      RunInv(cfg, Step(cfg, s, events[0]), events[1..]);
    }
  }

  function PortNumbers(n: nat): (ports: set<nat>)
    ensures forall p: nat :: p in ports <==> p < n
  {
    if n == 0 then {} else PortNumbers(n - 1) + {n - 1}
  }

  /** At the launch of the lcores all counters are zero and all buffers empty. */
  function Initial(lcores: nat): State {
    var ports := PortNumbers(MAX_ETHPORTS);
    State(Memory(map p | p in ports :: RxSide(0, []), map d | d in ports :: TxSide(0, 0, [], [])),
          seq(lcores, c => Local(Top, [], None)))
  }

  lemma InitialPort(p: nat, d: nat, j: nat)
    ensures PortInv(Local(Top, [], None), RxSide(0, []), TxSide(0, 0, [], []), p, d, j)
  {
  }

  lemma InitialKeys(cfg: Config, c: nat)
    requires Configured(cfg) && c < |cfg.lists|
    ensures |cfg.dst| == MAX_ETHPORTS && HasKeys(cfg.dst, cfg.lists[c], Initial(|cfg.lists|).mem)
  {
    var list := cfg.lists[c];
    forall p | p in list ensures cfg.dst[p] < MAX_ETHPORTS { assert p in cfg.enabled; }
  }

  lemma InitialLcore(cfg: Config, c: nat)
    requires Configured(cfg) && c < |cfg.lists|
    ensures LcoreInv(cfg.dst, cfg.lists[c], Initial(|cfg.lists|).lcores[c], Initial(|cfg.lists|).mem)
  {
    hide PortInv, ListOk, Configured;
    ListsOk(cfg, c);
    InitialKeys(cfg, c);
    var s, list, dst := Initial(|cfg.lists|), cfg.lists[c], cfg.dst;
    assert s.lcores[c] == Local(Top, [], None);
    forall j | 0 <= j < |list|
      ensures PortInv(s.lcores[c], s.mem.rx[list[j]], s.mem.tx[dst[list[j]]], list[j], dst[list[j]], j)
    {
      assert list[j] in RxKeys(list) && dst[list[j]] in TxKeys(dst, list);
      InitialPort(list[j], dst[list[j]], j);
    }
  }

  lemma InitialInv(cfg: Config)
    requires Configured(cfg)
    ensures AllInv(cfg, Initial(|cfg.lists|))
  {
    hide PortInv, ListOk, ValidConfig;
    forall c | 0 <= c < |cfg.lists|
      ensures LcoreInv(cfg.dst, cfg.lists[c], Initial(|cfg.lists|).lcores[c], Initial(|cfg.lists|).mem)
    {
      InitialLcore(cfg, c);
    }
    assert |cfg.dst| == MAX_ETHPORTS by { DestinationCount(cfg); }
  }

  lemma DestinationCount(cfg: Config)
    requires Configured(cfg)
    ensures |cfg.dst| == MAX_ETHPORTS
  {
  }

  /** The state after `events`, from the launch on. */
  ghost function Launched(cfg: Config, events: seq<Event>): (s: State)
    requires Configured(cfg)
    ensures AllInv(cfg, s)
  {
    InitialInv(cfg);
    RunInv(cfg, Initial(|cfg.lists|), events);
    Run(cfg, Initial(|cfg.lists|), events)
  }

  /**
   * In every run, for the `j`-th port `p` of lcore `c`: the packets received on `p` are, in order, those handed
   * over on `dst[p]`, those in its buffer, and those of the burst in hand; and once the lcore has no increment
   * pending, the counters say the same.
   */
  lemma PacketConservation(cfg: Config, events: seq<Event>, c: nat, j: nat)
    requires Configured(cfg) && c < |cfg.lists| && j < |cfg.lists[c]|
    ensures var s := Launched(cfg, events);
            var p, d := cfg.lists[c][j], cfg.dst[cfg.lists[c][j]];
            && p in s.mem.rx && d in s.mem.tx
            && var rx, tx, burst := s.mem.rx[p], s.mem.tx[d], BurstOf(s.lcores[c], j);
               && rx.received == PacketsOf(tx.handed) + tx.buffer + burst
               && (s.lcores[c].adds == [] ==>
                     && rx.count == tx.tx + tx.dropped + |tx.buffer| + |burst|
                     && rx.count == |rx.received| && tx.tx == SentCount(tx.handed))
  {
    var s := Launched(cfg, events);
    assert LcoreInv(cfg.dst, cfg.lists[c], s.lcores[c], s.mem);
    var p, d := cfg.lists[c][j], cfg.dst[cfg.lists[c][j]];
    assert PortInv(s.lcores[c], s.mem.rx[p], s.mem.tx[d], p, d, j);
  }

  /** Right after an lcore's drain pass, all its ports have rx = tx + dropped. */
  lemma DrainedPortsBalance(cfg: Config, events: seq<Event>, c: nat, j: nat)
    requires Configured(cfg) && c < |cfg.lists| && j < |cfg.lists[c]|
    requires Launched(cfg, events).lcores[c] == Local(Drain(|cfg.lists[c]|), [], None)
    ensures var s := Launched(cfg, events);
            var p, d := cfg.lists[c][j], cfg.dst[cfg.lists[c][j]];
            p in s.mem.rx && d in s.mem.tx && s.mem.rx[p].count == s.mem.tx[d].tx + s.mem.tx[d].dropped
  {
    PacketConservation(cfg, events, c, j);
    var s := Launched(cfg, events);
    assert LcoreInv(cfg.dst, cfg.lists[c], s.lcores[c], s.mem);
  }
}