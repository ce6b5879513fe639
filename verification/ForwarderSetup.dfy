/** The forwarder's start-up: port map check, destination table, and assignment of ports to lcores. */
module ForwarderSetup {
  import opened Options
  import opened PortMask
  import opened LcoreLists

  const MAX_LCORE: nat := 128
  const MAX_RX_QUEUE_PER_LCORE: nat := 16

  datatype Pair = Pair(first: Port, second: Port)

  function PortOf(pair: Pair, side: nat): Port {
    if side == 0 then pair.first else pair.second
  }

  ghost function SidesBelow(pair: Pair, side: nat): set<Port> {
    if side == 0 then {} else if side == 1 then {pair.first} else PortsOf(pair)
  }

  ghost function PortsOf(pair: Pair): set<Port> {
    {pair.first, pair.second}
  }

  ghost function PairedPorts(pairs: seq<Pair>): set<Port> {
    set k, p | 0 <= k < |pairs| && p in PortsOf(pairs[k]) :: p
  }

  /** Every port of the map is enabled and present, and no two pairs share a port. */
  ghost predicate PairsAccepted(pairs: seq<Pair>, enabled: set<Port>, present: set<Port>) {
    && (forall k :: 0 <= k < |pairs| ==> PortsOf(pairs[k]) <= enabled * present)
    && (forall j, k :: 0 <= j < k < |pairs| ==> PortsOf(pairs[j]) !! PortsOf(pairs[k]))
  }

  lemma PairedPortsNext(pairs: seq<Pair>, n: nat)
    requires n < |pairs|
    ensures PairedPorts(pairs[..n + 1]) == PairedPorts(pairs[..n]) + PortsOf(pairs[n])
  {
    var longer, shorter := pairs[..n + 1], pairs[..n];
    forall p | p in PortsOf(pairs[n]) ensures p in PairedPorts(longer) { assert longer[n] == pairs[n]; }
    forall p | p in PairedPorts(shorter) ensures p in PairedPorts(longer) {
      var k :| 0 <= k < n && p in PortsOf(shorter[k]);
      assert longer[k] == shorter[k];
    }
    forall p | p in PairedPorts(longer) ensures p in PairedPorts(shorter) + PortsOf(pairs[n]) {
      var k :| 0 <= k < n + 1 && p in PortsOf(longer[k]);
      if k < n { assert shorter[k] == longer[k]; }
    }
  }

  lemma AcceptNext(pairs: seq<Pair>, n: nat, enabled: set<Port>, present: set<Port>)
    requires n < |pairs|
    ensures PairsAccepted(pairs[..n + 1], enabled, present) <==>
              && PairsAccepted(pairs[..n], enabled, present)
              && PortsOf(pairs[n]) <= enabled * present
              && PairedPorts(pairs[..n]) !! PortsOf(pairs[n])
  {
    if PairsAccepted(pairs[..n + 1], enabled, present) {
      AcceptPrefix(pairs[..n + 1], n, enabled, present);
      assert pairs[..n + 1][..n] == pairs[..n];
      LastIsApart(pairs, n, enabled, present);
    } else if PairsAccepted(pairs[..n], enabled, present) && PairedPorts(pairs[..n]) !! PortsOf(pairs[n]) {
      forall j | 0 <= j < n ensures PortsOf(pairs[j]) !! PortsOf(pairs[n]) {
        assert pairs[..n][j] == pairs[j];
        assert PortsOf(pairs[j]) <= PairedPorts(pairs[..n]);
      }
    }
  }

  lemma LastIsApart(pairs: seq<Pair>, n: nat, enabled: set<Port>, present: set<Port>)
    requires n < |pairs| && PairsAccepted(pairs[..n + 1], enabled, present)
    ensures PortsOf(pairs[n]) <= enabled * present && PairedPorts(pairs[..n]) !! PortsOf(pairs[n])
  {
    var longer := pairs[..n + 1];
    assert longer[n] == pairs[n];
    forall p | p in PairedPorts(pairs[..n]) ensures p !in PortsOf(pairs[n]) {
      var k :| 0 <= k < n && p in PortsOf(pairs[..n][k]);
      assert longer[k] == pairs[k];
      assert PortsOf(longer[k]) !! PortsOf(longer[n]);
    }
  }

  lemma StartCheck(pairs: seq<Pair>, enabled: set<Port>, present: set<Port>)
    ensures PairsAccepted(pairs[..0], enabled, present) && PairedPorts(pairs[..0]) == {}
  {
  }

  lemma AcceptPrefix(pairs: seq<Pair>, n: nat, enabled: set<Port>, present: set<Port>)
    requires n <= |pairs| && PairsAccepted(pairs, enabled, present)
    ensures PairsAccepted(pairs[..n], enabled, present)
  {
  }

  function Present(ports: seq<Port>): set<Port> {
    set p | p in ports
  }

  // ---------- the destination table ----------

  /** `dst` maps the enabled ports to each other, and going there twice leads back. */
  ghost predicate Involution(dst: seq<nat>, enabled: set<Port>) {
    && |dst| == MAX_ETHPORTS
    && forall p :: p in enabled ==> dst[p] < MAX_ETHPORTS && dst[p] in enabled && dst[dst[p]] == p
  }

  /** The enabled ports in the order the devices are listed. */
  function EnabledPorts(devices: seq<Port>, mask: bv32): seq<Port> {
    if devices == [] then []
    else
      var last := devices[|devices| - 1];
      EnabledPorts(devices[..|devices| - 1], mask) + if Test(mask, last) then [last] else []
  }

  lemma {:induction false} EnabledPortsMembers(devices: seq<Port>, mask: bv32)
    ensures forall p :: p in EnabledPorts(devices, mask) <==> p in devices && p in Bits(mask)
  {
    if devices != [] {
      EnabledPortsMembers(devices[..|devices| - 1], mask);
      assert forall p :: p in devices <==> p in devices[..|devices| - 1] || p == devices[|devices| - 1];
    }
  }

  lemma EnabledPortsNext(devices: seq<Port>, mask: bv32, k: nat)
    requires k < |devices|
    ensures EnabledPorts(devices[..k + 1], mask) ==
            EnabledPorts(devices[..k], mask) + if Test(mask, devices[k]) then [devices[k]] else []
  {
    assert devices[..k + 1][..k] == devices[..k];
  }

  lemma {:induction false} EnabledPortsPrefix(devices: seq<Port>, mask: bv32, k: nat)
    requires k <= |devices|
    ensures |EnabledPorts(devices[..k], mask)| <= |EnabledPorts(devices, mask)|
    decreases |devices| - k
  {
    if k == |devices| {
      assert devices[..k] == devices;
    } else {
      EnabledPortsNext(devices, mask, k);
      EnabledPortsPrefix(devices, mask, k + 1);
    }
  }

  ghost predicate Increasing(s: seq<nat>) {
    forall i, j :: 0 <= i < j < |s| ==> s[i] < s[j]
  }

  lemma {:induction false} EnabledPortsIncreasing(devices: seq<Port>, mask: bv32)
    requires Increasing(devices)
    ensures Increasing(EnabledPorts(devices, mask))
  {
    if devices != [] {
      var init := devices[..|devices| - 1];
      EnabledPortsIncreasing(init, mask);
      EnabledPortsMembers(init, mask);
      var ports := EnabledPorts(init, mask);
      forall i | 0 <= i < |ports| ensures ports[i] < devices[|devices| - 1] {
        assert ports[i] in init;
      }
    }
  }

  lemma IncreasingPrefix(s: seq<nat>, n: nat)
    requires Increasing(s) && n <= |s|
    ensures Increasing(s[..n])
  {
  }

  predicate Odd(n: nat) {
    n % 2 == 1
  }

  lemma OddSteps(n: nat)
    ensures !Odd(0) && (Odd(n + 1) <==> !Odd(n))
  {
  }

  /** The neighbour of the `i`-th of `n` ports; the last of an odd number is its own. */
  function Partner(i: nat, n: nat): (j: nat)
    requires i < n
    ensures j < n && (j == i <==> i == n - 1 && Odd(n))
  {
    if i % 2 == 1 then i - 1 else if i + 1 < n then i + 1 else i
  }

  lemma PartnerTwice(i: nat, n: nat)
    requires i < n
    ensures Partner(Partner(i, n), n) == i
  {
  }

  /** The first port and the second forward to each other, the third and the fourth, and so on; a last one to itself. */
  ghost predicate Alternating(dst: seq<nat>, ports: seq<Port>)
    requires |dst| == MAX_ETHPORTS
  {
    && (forall i, j :: 0 <= i < j < |ports| && i % 2 == 0 && j == i + 1 ==>
          dst[ports[i]] == ports[j] && dst[ports[j]] == ports[i])
    && (|ports| % 2 == 1 ==> dst[ports[|ports| - 1]] == ports[|ports| - 1])
  }

  lemma PartnersAlternate(dst: seq<nat>, ports: seq<Port>)
    requires |dst| == MAX_ETHPORTS && forall i :: 0 <= i < |ports| ==> dst[ports[i]] == ports[Partner(i, |ports|)]
    ensures Alternating(dst, ports)
  {
    hide Partner;
    forall i, j | 0 <= i < j < |ports| && i % 2 == 0 && j == i + 1
      ensures dst[ports[i]] == ports[j] && dst[ports[j]] == ports[i]
    {
      PartnersOf(i, j, |ports|);
    }
    if |ports| % 2 == 1 { LastPartner(|ports|); }
  }

  lemma PartnersOf(i: nat, j: nat, n: nat)
    requires i < j < n && i % 2 == 0 && j == i + 1
    ensures Partner(i, n) == j && Partner(j, n) == i
  {
  }

  lemma LastPartner(n: nat)
    requires n % 2 == 1
    ensures Partner(n - 1, n) == n - 1
  {
  }

  lemma NeighboursInvolution(dst: seq<nat>, ports: seq<Port>)
    requires |dst| == MAX_ETHPORTS && forall i :: 0 <= i < |ports| ==> dst[ports[i]] == ports[Partner(i, |ports|)]
    ensures Involution(dst, Present(ports))
    ensures Increasing(ports) ==>
              forall i :: 0 <= i < |ports| ==> (dst[ports[i]] == ports[i] <==> i == |ports| - 1 && Odd(|ports|))
  {
    forall p | p in ports
      ensures dst[p] < MAX_ETHPORTS && dst[p] in ports && dst[dst[p]] == p
    {
      var i :| 0 <= i < |ports| && ports[i] == p;
      PartnerTwice(i, |ports|);
      hide Partner;
      assert dst[ports[Partner(i, |ports|)]] == ports[i];
    }
  }

  class Forwarder {
    var enabledPortMask: bv32
    const dstPorts: array<nat>
    /** The RX port list of each lcore. */
    const rxPorts: array<seq<Port>>
    var rxQueuePerLcore: nat

    constructor (mask: bv32, quota: nat)
      ensures enabledPortMask == mask && rxQueuePerLcore == quota
      ensures fresh(dstPorts) && fresh(rxPorts)
      ensures dstPorts.Length == MAX_ETHPORTS && rxPorts.Length == MAX_LCORE
      ensures forall l :: 0 <= l < MAX_LCORE ==> rxPorts[l] == []
    {
      enabledPortMask, rxQueuePerLcore := mask, quota;
      dstPorts := new nat[MAX_ETHPORTS](i => 0);
      rxPorts := new seq<Port>[MAX_LCORE](i => []);
    }

    /** The inner loop, over the two ports of a pair. */
    method CheckPair(pair: Pair, present: set<Port>) returns (ok: bool, pairMask: bv32)
      ensures ok <==> PortsOf(pair) <= Bits(enabledPortMask) * present
      ensures ok ==> Bits(pairMask) == PortsOf(pair)
    {
      hide Has, Test, WithPort;
      pairMask := 0;
      BitsEmpty();
      for side := 0 to 2
        invariant Bits(pairMask) == SidesBelow(pair, side) <= Bits(enabledPortMask) * present
      {
        var port := PortOf(pair, side);
        assert port in PortsOf(pair);
        if !Test(enabledPortMask, port) {
          return false, 0;
        }
        if port !in present {
          return false, 0;
        }
        pairMask := WithPort(pairMask, port);
      }
      ok := true;
    }

    /** Check the port map against the mask; on success the mask becomes exactly the ports of the map. */
    method CheckPortPairConfig(pairs: seq<Pair>, present: set<Port>) returns (ok: bool)
      modifies this`enabledPortMask
      ensures ok <==> PairsAccepted(pairs, Bits(old(enabledPortMask)), present)
      ensures ok ==> Bits(enabledPortMask) == PairedPorts(pairs)
      ensures !ok ==> enabledPortMask == old(enabledPortMask)
    {
      hide Has, PairsAccepted, PairedPorts, Overlap, Union, Intersection;
      var configMask: bv32 := 0;
      BitsEmpty();
      ghost var enabled := Bits(enabledPortMask);
      StartCheck(pairs, enabled, present);
      for index := 0 to |pairs|
        invariant enabledPortMask == old(enabledPortMask)
        invariant PairsAccepted(pairs[..index], enabled, present)
        invariant Bits(configMask) == PairedPorts(pairs[..index]) <= enabled
      {
        AcceptNext(pairs, index, enabled, present);
        PairedPortsNext(pairs, index);
        if PairsAccepted(pairs, enabled, present) {
          AcceptPrefix(pairs, index + 1, enabled, present);
        }
        var fits, pairMask := CheckPair(pairs[index], present);
        if !fits {
          return false;
        }
        if Overlap(configMask, pairMask) {
          return false;
        }
        configMask := Union(configMask, pairMask);
      }
      assert pairs[..|pairs|] == pairs;
      enabledPortMask := Intersection(enabledPortMask, configMask);
      ok := true;
    }

    /** Fill the table from the port map. */
    method FillFromPairs(pairs: seq<Pair>)
      requires dstPorts.Length == MAX_ETHPORTS && PairsDisjoint(pairs)
      modifies dstPorts
      ensures Involution(dstPorts[..], PairedPorts(pairs))
      ensures forall k :: 0 <= k < |pairs| ==> Linked(dstPorts[..], pairs[k])
    {
      ResetDestinations();
      ghost var k, side := 0, 0;
      for idx := 0 to 2 * |pairs|
        invariant idx == 2 * k + side && 0 <= side < 2 && k <= |pairs|
        invariant forall j :: 0 <= j < k ==> Linked(dstPorts[..], pairs[j])
        invariant side == 1 ==> k < |pairs| && dstPorts[pairs[k].first] == pairs[k].second
      {
        Halves(idx, k, side);
        var p, pair := idx % 2, pairs[idx / 2];
        ghost var before := dstPorts[..];
        dstPorts[PortOf(pair, p)] := PortOf(pair, 1 - p);
        forall j | 0 <= j < k ensures Linked(dstPorts[..], pairs[j]) {
          assert Linked(before, pairs[j]) && PortsOf(pairs[j]) !! PortsOf(pairs[k]);
          assert pairs[j].first in PortsOf(pairs[j]) && pairs[j].second in PortsOf(pairs[j]);
          assert PortOf(pair, p) in PortsOf(pair);
        }
        if side == 0 { side := 1; } else { k, side := k + 1, 0; }
      }
      PairsInvolution(dstPorts[..], pairs);
    }

    /** Assign the enabled ports to lcores, moving on when an lcore is full. */
    method AssignLcores(devices: seq<Port>, lcoreEnabled: seq<bool>) returns (ok: bool, nbLcores: nat)
      requires rxPorts.Length == MAX_LCORE == |lcoreEnabled|
      requires forall l :: 0 <= l < MAX_LCORE ==> rxPorts[l] == []
      requires 1 <= rxQueuePerLcore < MAX_RX_QUEUE_PER_LCORE
      modifies rxPorts
      ensures ok <==> |EnabledPorts(devices, enabledPortMask)| <= rxQueuePerLcore * EnabledCount(lcoreEnabled)
      ensures ok ==> Flatten(rxPorts[..]) == EnabledPorts(devices, enabledPortMask)
      ensures ok ==> exists current :: Greedy(rxPorts[..], current, rxQueuePerLcore, lcoreEnabled)
      ensures ok ==> RoundedUp(nbLcores, |EnabledPorts(devices, enabledPortMask)|, rxQueuePerLcore)
    {
      hide EnabledPorts, Test, Flatten, EnabledCount, Greedy;
      var rxLcore, quota, qconf: Option<nat> := 0, rxQueuePerLcore, None;
      ghost var ports := EnabledPorts(devices, enabledPortMask);
      NothingAssigned(rxPorts[..], quota, lcoreEnabled, devices, enabledPortMask);
      nbLcores := 0;
      for k := 0 to |devices|
        invariant rxLcore < MAX_LCORE && Greedy(rxPorts[..], rxLcore, quota, lcoreEnabled)
        invariant qconf == Some(rxLcore) <==> rxPorts[rxLcore] != []
        invariant qconf.Some? ==> qconf.value <= rxLcore
        invariant Flatten(rxPorts[..]) == EnabledPorts(devices[..k], enabledPortMask)
        invariant nbLcores == EnabledCount(lcoreEnabled[..rxLcore]) + if rxPorts[rxLcore] == [] then 0 else 1
      {
        EnabledPortsNext(devices, enabledPortMask, k);
        if Test(enabledPortMask, devices[k]) {
          var enough := NextLcore(rxLcore, lcoreEnabled, quota, nbLcores);
          match enough
          case None =>
            EnabledPortsPrefix(devices, enabledPortMask, k + 1);
            return false, 0;
          case Some(next) =>
            rxLcore := next;
            if qconf != Some(rxLcore) {
              qconf := Some(rxLcore);
              nbLcores := nbLcores + 1;
            }
            assert |rxPorts[rxLcore]| < MAX_RX_QUEUE_PER_LCORE;
            ghost var before := rxPorts[..];
            PortAdded(before, rxLcore, quota, lcoreEnabled, devices[k]);
            rxPorts[rxLcore] := rxPorts[rxLcore] + [devices[k]];
            assert rxPorts[..] == before[rxLcore := before[rxLcore] + [devices[k]]];
        }
      }
      assert devices[..|devices|] == devices;
      LcoresUsed(rxPorts[..], rxLcore, quota, lcoreEnabled);
      ok := true;
    }

    /** Skip lcores that are disabled or full; none is left when the end of the table is reached. */
    method NextLcore(start: nat, lcoreEnabled: seq<bool>, quota: nat, ghost nbLcores: nat) returns (next: Option<nat>)
      requires rxPorts.Length == MAX_LCORE == |lcoreEnabled| && quota >= 1
      requires Greedy(rxPorts[..], start, quota, lcoreEnabled)
      requires nbLcores == EnabledCount(lcoreEnabled[..start]) + if rxPorts[start] == [] then 0 else 1
      ensures next.Some? ==>
                && start <= next.value < MAX_LCORE && (start < next.value ==> rxPorts[next.value] == [])
                && Greedy(rxPorts[..], next.value, quota, lcoreEnabled)
                && lcoreEnabled[next.value] && |rxPorts[next.value]| < quota
                && nbLcores == EnabledCount(lcoreEnabled[..next.value]) + if rxPorts[next.value] == [] then 0 else 1
      ensures next.None? ==> |Flatten(rxPorts[..])| == quota * EnabledCount(lcoreEnabled)
    {
      var lcore := start;
      while !lcoreEnabled[lcore] || |rxPorts[lcore]| == quota
        invariant start <= lcore < MAX_LCORE && Greedy(rxPorts[..], lcore, quota, lcoreEnabled)
        invariant nbLcores == EnabledCount(lcoreEnabled[..lcore]) + if rxPorts[lcore] == [] then 0 else 1
        decreases MAX_LCORE - lcore
      {
        EnabledCountPrefix(lcoreEnabled, lcore);
        lcore := lcore + 1;
        if lcore >= MAX_LCORE {
          FullLength(rxPorts[..], quota, lcoreEnabled);
          return None;
        }
      }
      next := Some(lcore);
    }

    /** Start-up from the parsed arguments to the launch of the lcores. */
    method Start(portMap: Option<seq<Pair>>, devices: seq<Port>, lcoreEnabled: seq<bool>)
      returns (ok: bool, nbLcores: nat)
      requires dstPorts.Length == MAX_ETHPORTS && rxPorts.Length == MAX_LCORE == |lcoreEnabled|
      requires forall l :: 0 <= l < MAX_LCORE ==> rxPorts[l] == []
      requires 1 <= rxQueuePerLcore < MAX_RX_QUEUE_PER_LCORE && Increasing(devices)
      modifies this`enabledPortMask, dstPorts, rxPorts
      ensures rxQueuePerLcore == old(rxQueuePerLcore)
      ensures ok <==>
                && (portMap.Some? ==> PairsAccepted(portMap.value, Bits(old(enabledPortMask)), Present(devices)))
                && |EnabledPorts(devices, enabledPortMask)| <= rxQueuePerLcore * EnabledCount(lcoreEnabled)
      ensures ok ==> ValidConfig(dstPorts[..], rxPorts[..], Present(EnabledPorts(devices, enabledPortMask)))
      ensures portMap.None? ==> enabledPortMask == old(enabledPortMask)
      ensures ok && portMap.Some? ==>
                && Present(EnabledPorts(devices, enabledPortMask)) == PairedPorts(portMap.value)
                && forall k :: 0 <= k < |portMap.value| ==> Linked(dstPorts[..], portMap.value[k])
      ensures ok && portMap.None? ==> Alternating(dstPorts[..], EnabledPorts(devices, enabledPortMask))
      ensures ok ==> RoundedUp(nbLcores, |EnabledPorts(devices, enabledPortMask)|, rxQueuePerLcore)
    {
      hide *;
      nbLcores := 0;
      ok := FillDestinations(portMap, devices);
      if ok {
        ok, nbLcores := AssignLcores(devices, lcoreEnabled);
        if ok {
          AssignmentPartitions(rxPorts[..], devices, enabledPortMask);
          ConfigFrom(dstPorts[..], rxPorts[..], Present(EnabledPorts(devices, enabledPortMask)));
        }
      }
    }

    /** The destination table, from the port map if there is one. */
    method FillDestinations(portMap: Option<seq<Pair>>, devices: seq<Port>) returns (ok: bool)
      requires dstPorts.Length == MAX_ETHPORTS && Increasing(devices)
      modifies this`enabledPortMask, dstPorts
      ensures ok <==> (portMap.Some? ==> PairsAccepted(portMap.value, Bits(old(enabledPortMask)), Present(devices)))
      ensures ok ==> Involution(dstPorts[..], Present(EnabledPorts(devices, enabledPortMask)))
      ensures portMap.None? ==> enabledPortMask == old(enabledPortMask)
      ensures ok && portMap.Some? ==>
                && Present(EnabledPorts(devices, enabledPortMask)) == PairedPorts(portMap.value)
                && forall k :: 0 <= k < |portMap.value| ==> Linked(dstPorts[..], portMap.value[k])
      ensures ok && portMap.None? ==> Alternating(dstPorts[..], EnabledPorts(devices, enabledPortMask))
    {
      hide PairedPorts, EnabledPorts, Present, Involution, Linked, Alternating, Partner;
      if portMap.Some? {
        ok := CheckPortPairConfig(portMap.value, Present(devices));
        if !ok {
          return;
        }
        FillFromPairs(portMap.value);
        PairedPortsPresent(portMap.value, enabledPortMask, devices, Bits(old(enabledPortMask)));
      } else {
        FillAlternating(devices);
        ok := true;
      }
    }

    method ResetDestinations()
      requires dstPorts.Length == MAX_ETHPORTS
      modifies dstPorts
      ensures forall p :: 0 <= p < MAX_ETHPORTS ==> dstPorts[p] == 0
    {
      for p := 0 to MAX_ETHPORTS
        invariant forall i :: 0 <= i < p ==> dstPorts[i] == 0
      {
        dstPorts[p] := 0;
      }
    }

    /** One more enabled port: the second of a pair forwards to the first, and the first to it. */
    method NextPort(port: Port, lastPort: Port, inMask: nat, ghost done: seq<Port>) returns (r: Port)
      requires dstPorts.Length == MAX_ETHPORTS && Increasing(done + [port]) && Neighbours(dstPorts[..], done)
      requires inMask == |done| && (Odd(inMask) ==> inMask > 0 && lastPort == done[inMask - 1])
      modifies dstPorts
      ensures Neighbours(dstPorts[..], done + [port])
      ensures Odd(inMask + 1) ==> r == port
    {
      hide Neighbours, Increasing, Odd;
      OddSteps(inMask);
      ghost var before: seq<nat> := dstPorts[..];
      r := lastPort;
      if Odd(inMask) {
        dstPorts[port] := lastPort;
        dstPorts[lastPort] := port;
        assert dstPorts[..] == before[port := lastPort][lastPort := port];
      } else {
        r := port;
      }
      NeighboursStep(before, dstPorts[..], done, port);
    }

    /** The last port of an odd count forwards to itself. */
    method CloseOdd(lastPort: Port, inMask: nat, ghost done: seq<Port>)
      requires dstPorts.Length == MAX_ETHPORTS && Increasing(done) && Neighbours(dstPorts[..], done)
      requires inMask == |done| && (Odd(inMask) ==> inMask > 0 && lastPort == done[inMask - 1])
      modifies dstPorts
      ensures forall i :: 0 <= i < |done| ==> dstPorts[done[i]] == done[Partner(i, |done|)]
    {
      hide Neighbours, Increasing, Odd, Partner;
      ghost var before: seq<nat> := dstPorts[..];
      if Odd(inMask) {
        dstPorts[lastPort] := lastPort;
      }
      NeighboursEnd(before, dstPorts[..], done);
    }

    /** Without a port map, neighbouring enabled ports forward to each other. */
    method FillAlternating(devices: seq<Port>)
      requires dstPorts.Length == MAX_ETHPORTS && Increasing(devices)
      modifies dstPorts
      ensures var ports := EnabledPorts(devices, enabledPortMask);
              && Involution(dstPorts[..], Present(ports)) && Alternating(dstPorts[..], ports)
              && forall i :: 0 <= i < |ports| ==>
                    && dstPorts[ports[i]] == ports[Partner(i, |ports|)]
                    && (dstPorts[ports[i]] == ports[i] <==> i == |ports| - 1 && Odd(|ports|))
    {
      hide Neighbours, Partner, Increasing, Involution, Odd, EnabledPorts, Test, Present, Alternating;
      ResetDestinations();
      NoNeighbours(dstPorts[..], devices, enabledPortMask);
      OddSteps(0);
      var lastPort: Port, inMask := 0, 0;
      ghost var done: seq<Port> := [];
      for k := 0 to |devices|
        invariant done == EnabledPorts(devices[..k], enabledPortMask)
        invariant inMask == |done| && (Odd(inMask) ==> inMask > 0 && lastPort == done[inMask - 1])
        invariant Neighbours(dstPorts[..], done)
      {
        NextDevice(devices, enabledPortMask, k);
        if Test(enabledPortMask, devices[k]) {
          lastPort := NextPort(devices[k], lastPort, inMask, done);
          inMask := inMask + 1;
          done := done + [devices[k]];
        }
      }
      assert devices[..|devices|] == devices;
      EnabledPortsIncreasing(devices, enabledPortMask);
      CloseOdd(lastPort, inMask, done);
      NeighboursInvolution(dstPorts[..], done);
      PartnersAlternate(dstPorts[..], done);
    }
  }

  lemma NextDevice(devices: seq<Port>, mask: bv32, k: nat)
    requires Increasing(devices) && k < |devices|
    ensures EnabledPorts(devices[..k + 1], mask) ==
            if Test(mask, devices[k]) then EnabledPorts(devices[..k], mask) + [devices[k]]
            else EnabledPorts(devices[..k], mask)
    ensures Increasing(EnabledPorts(devices[..k + 1], mask))
  {
    hide EnabledPorts, Test, Increasing;
    EnabledPortsNext(devices, mask, k);
    IncreasingPrefix(devices, k + 1);
    EnabledPortsIncreasing(devices[..k + 1], mask);
  }

  lemma NothingAssigned(lists: PortLists, quota: nat, lcoreEnabled: seq<bool>, devices: seq<Port>, mask: bv32)
    requires |lists| == |lcoreEnabled| > 0 && forall l :: 0 <= l < |lists| ==> lists[l] == []
    ensures Greedy(lists, 0, quota, lcoreEnabled) && Flatten(lists) == EnabledPorts(devices[..0], mask)
    ensures EnabledCount(lcoreEnabled[..0]) == 0
  {
    FlattenEmpty(lists);
  }

  lemma PortAdded(lists: PortLists, current: nat, quota: nat, lcoreEnabled: seq<bool>, port: Port)
    requires Greedy(lists, current, quota, lcoreEnabled) && lcoreEnabled[current] && |lists[current]| < quota
    ensures var longer := lists[current := lists[current] + [port]];
            Greedy(longer, current, quota, lcoreEnabled) && Flatten(longer) == Flatten(lists) + [port]
  {
    FlattenAppend(lists, current, port);
  }

  lemma PairedPortsPresent(pairs: seq<Pair>, mask: bv32, devices: seq<Port>, enabled: set<Port>)
    requires Bits(mask) == PairedPorts(pairs) && PairsAccepted(pairs, enabled, Present(devices))
    ensures Present(EnabledPorts(devices, mask)) == PairedPorts(pairs)
  {
    EnabledPortsMembers(devices, mask);
    forall p | p in PairedPorts(pairs) ensures p in devices {
      var k :| 0 <= k < |pairs| && p in PortsOf(pairs[k]);
      assert PortsOf(pairs[k]) <= enabled * Present(devices);
    }
  }

  /** Each enabled port is listed by exactly one lcore, exactly once. */
  ghost predicate Partitions(lists: PortLists, enabled: set<Port>) {
    && (forall p :: p in enabled <==> exists l :: 0 <= l < |lists| && p in lists[l])
    && (forall l, m, p :: 0 <= l < |lists| && 0 <= m < |lists| && p in lists[l] && p in lists[m] ==> l == m)
    && (forall l :: 0 <= l < |lists| ==> NoDuplicates(lists[l]))
  }

  ghost predicate ValidConfig(dst: seq<nat>, lists: PortLists, enabled: set<Port>) {
    Involution(dst, enabled) && Partitions(lists, enabled)
  }

  lemma ConfigFrom(dst: seq<nat>, lists: PortLists, enabled: set<Port>)
    requires Involution(dst, enabled) && Partitions(lists, enabled)
    ensures ValidConfig(dst, lists, enabled)
  {
  }

  lemma IncreasingDistinct(s: seq<Port>)
    requires Increasing(s)
    ensures NoDuplicates(s)
  {
  }

  lemma AssignmentPartitions(lists: PortLists, devices: seq<Port>, mask: bv32)
    requires Increasing(devices) && Flatten(lists) == EnabledPorts(devices, mask)
    ensures Partitions(lists, Present(EnabledPorts(devices, mask)))
  {
    hide Flatten, EnabledPorts, Increasing, NoDuplicates;
    var ports := EnabledPorts(devices, mask);
    EnabledPortsIncreasing(devices, mask);
    IncreasingDistinct(ports);
    FlattenApart(lists);
    forall p: Port ensures p in ports <==> exists l :: 0 <= l < |lists| && p in lists[l] {
      FlattenMembers(lists, p);
    }
  }

  /** `nb` is the number of ports divided by the quota, rounded up. */
  ghost predicate RoundedUp(nb: nat, ports: nat, quota: nat) {
    ports <= quota * nb && (nb > 0 ==> quota * (nb - 1) < ports)
  }

  lemma LcoresUsed(lists: PortLists, current: nat, quota: nat, lcoreEnabled: seq<bool>)
    requires Greedy(lists, current, quota, lcoreEnabled) && quota >= 1
    ensures |Flatten(lists)| == quota * EnabledCount(lcoreEnabled[..current]) + |lists[current]|
    ensures RoundedUp(EnabledCount(lcoreEnabled[..current]) + (if lists[current] == [] then 0 else 1),
                      |Flatten(lists)|, quota)
    ensures |Flatten(lists)| <= quota * EnabledCount(lcoreEnabled)
  {
    GreedyLength(lists, current, quota, lcoreEnabled);
    EnabledCountPrefix(lcoreEnabled, current);
    hide EnabledCount, Flatten;
    var e, all := EnabledCount(lcoreEnabled[..current]), EnabledCount(lcoreEnabled);
    MulNext(quota, e);
    if e > 0 { MulNext(quota, e - 1); }
    MulMonotone(quota, if lcoreEnabled[current] then e + 1 else e, all);
  }

  lemma MulNext(quota: nat, e: nat)
    ensures quota * (e + 1) == quota * e + quota
  {
  }

  lemma MulMonotone(quota: nat, e: nat, f: nat)
    requires e <= f
    ensures quota * e <= quota * f
  {
  }

  ghost predicate PairsDisjoint(pairs: seq<Pair>) {
    forall j, k :: 0 <= j < k < |pairs| ==> PortsOf(pairs[j]) !! PortsOf(pairs[k])
  }

  ghost predicate Linked(dst: seq<nat>, pair: Pair)
    requires |dst| == MAX_ETHPORTS
  {
    dst[pair.first] == pair.second && dst[pair.second] == pair.first
  }

  lemma Halves(idx: nat, k: nat, side: nat)
    requires idx == 2 * k + side && side < 2
    ensures idx / 2 == k && idx % 2 == side
  {
  }

  lemma PairsInvolution(dst: seq<nat>, pairs: seq<Pair>)
    requires |dst| == MAX_ETHPORTS && forall k :: 0 <= k < |pairs| ==> Linked(dst, pairs[k])
    ensures Involution(dst, PairedPorts(pairs))
  {
    forall p | p in PairedPorts(pairs)
      ensures dst[p] < MAX_ETHPORTS && dst[p] in PairedPorts(pairs) && dst[dst[p]] == p
    {
      var k :| 0 <= k < |pairs| && p in PortsOf(pairs[k]);
      assert Linked(dst, pairs[k]);
      assert dst[p] in PortsOf(pairs[k]);
    }
  }

  /** The next port for an even position, the previous one for an odd position. */
  function Mate(i: nat): nat {
    if i % 2 == 1 then i - 1 else i + 1
  }

  /** All complete couples of `ports` forward to each other. */
  ghost predicate Neighbours(dst: seq<nat>, ports: seq<Port>) {
    && |dst| == MAX_ETHPORTS
    && forall i :: 0 <= i < |ports| && Mate(i) < |ports| ==> dst[ports[i]] == ports[Mate(i)]
  }

  lemma NoNeighbours(dst: seq<nat>, devices: seq<Port>, mask: bv32)
    requires |dst| == MAX_ETHPORTS
    ensures Neighbours(dst, []) && EnabledPorts(devices[..0], mask) == []
  {
  }

  lemma MateParity(i: nat, n: nat)
    ensures i < n && n % 2 == 0 ==> Mate(i) < n
    ensures n % 2 == 1 && i < n - 1 ==> Mate(i) < n - 1
    ensures n % 2 == 1 ==> Mate(n - 1) == n && Mate(n) == n - 1
    ensures n % 2 == 0 ==> Mate(n) == n + 1
    ensures i < n ==> Partner(i, n) == if Mate(i) < n then Mate(i) else i
    ensures i < n && Mate(i) >= n ==> i == n - 1 && n % 2 == 1
  {
  }

  lemma NeighboursStep(before: seq<nat>, after: seq<nat>, ports: seq<Port>, port: Port)
    requires Neighbours(before, ports) && Increasing(ports + [port])
    requires after == if Odd(|ports|) then before[port := ports[|ports| - 1]][ports[|ports| - 1] := port] else before
    ensures Neighbours(after, ports + [port])
  {
    var n, all := |ports|, ports + [port];
    forall i | 0 <= i < |all| && Mate(i) < |all|
      ensures after[all[i]] == all[Mate(i)]
    {
      MateParity(i, n);
      hide Mate;
      if i < n - 1 {
        assert ports[i] == all[i] < all[n - 1] && all[i] < all[n] == port;
      }
    }
  }

  lemma NeighboursEnd(before: seq<nat>, after: seq<nat>, ports: seq<Port>)
    requires Neighbours(before, ports) && Increasing(ports)
    requires after == if Odd(|ports|) then before[ports[|ports| - 1] := ports[|ports| - 1]] else before
    ensures forall i :: 0 <= i < |ports| ==> after[ports[i]] == ports[Partner(i, |ports|)]
  {
    forall i | 0 <= i < |ports|
      ensures after[ports[i]] == ports[Partner(i, |ports|)]
    {
      MateParity(i, |ports|);
      hide Mate, Partner;
      if i < |ports| - 1 {
        assert ports[i] < ports[|ports| - 1];
      }
    }
  }
}