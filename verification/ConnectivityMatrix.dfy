/**
 * The connectivity matrix builder: one goroutine per pair of pods sends its probe result on a bounded
 * channel, one consumer stores what it receives, and two wait groups end the run.
 */
module ConnectivityMatrix {
  import opened Options

  datatype Pod = Nil | Pod(id: int)

  datatype Entry = Entry(source: Pod, destination: Pod, value: bool)

  type Matrix = map<Pod, map<Pod, bool>>

  /** The outcome of a probe between two pods; none if it returned an error. */
  type Probe = (Pod, Pod) -> Option<bool>

  datatype Setting = Setting(pods: seq<Pod>, probe: Probe, capacity: nat)

  /** A producer: not started, about to probe, about to send, past the send, done. */
  datatype Producer = Waiting | Probing | Sending(entry: Entry) | Leaving | Finished

  datatype Main = Spawning(next: nat) | AwaitProducers | CloseChannel | AwaitConsumer | Returned

  datatype Consumer = Receiving | Storing(entry: Entry) | Ended

  datatype State = State(
    main: Main, producers: seq<Producer>, producerWG: int,
    queue: seq<Entry>, closed: bool, panicked: bool,
    consumer: Consumer, conversionWG: int, matrix: Matrix)

  /** Which goroutine moves; a hand-off is a send that meets a waiting receiver. */
  datatype Move = MainMoves | ProducerMoves(k: nat) | HandOff(k: nat) | ConsumerMoves

  // ---------- the sequential double loop ----------

  function Row(source: Pod, destinations: seq<Pod>): (row: seq<(Pod, Pod)>)
    ensures |row| == |destinations| && forall i :: 0 <= i < |row| ==> row[i] == (source, destinations[i])
  {
    seq(|destinations|, i requires 0 <= i < |destinations| => (source, destinations[i]))
  }

  /** The pairs of the double loop, in loop order. */
  function Pairs(sources: seq<Pod>, destinations: seq<Pod>): seq<(Pod, Pod)> {
    if sources == [] then [] else Row(sources[0], destinations) + Pairs(sources[1..], destinations)
  }

  function AllPairs(g: Setting): seq<(Pod, Pod)> {
    Pairs(g.pods, g.pods)
  }

  /** What one loop iteration contributes: nothing for a nil pod or a failed probe. */
  function Outcome(g: Setting, pair: (Pod, Pod)): Option<Entry> {
    if pair.0.Nil? || pair.1.Nil? then None
    else match g.probe(pair.0, pair.1)
      case None => None
      case Some(value) => Some(Entry(pair.0, pair.1, value))
  }

  function Store(m: Matrix, e: Entry): Matrix {
    var row := if e.source in m then m[e.source] else map[];
    m[e.source := row[e.destination := e.value]]
  }

  function StoreAll(g: Setting, m: Matrix, pairs: seq<(Pod, Pod)>): Matrix {
    if pairs == [] then m
    else
      var rest := StoreAll(g, m, pairs[..|pairs| - 1]);
      match Outcome(g, pairs[|pairs| - 1])
      case None => rest
      case Some(e) => Store(rest, e)
  }

  function SequentialMatrix(g: Setting): Matrix {
    StoreAll(g, map[], AllPairs(g))
  }

  // ---------- the concurrent builder ----------

  function Initial(g: Setting): State {
    State(Spawning(0), seq(|AllPairs(g)|, k => Waiting), 0, [], false, false, Receiving, 1, map[])
  }

  predicate Enabled(g: Setting, s: State, move: Move) {
    match move
    case MainMoves =>
      (match s.main
       case AwaitProducers => s.producerWG == 0
       case AwaitConsumer => s.conversionWG == 0
       case Returned => false
       case _ => true)
    case ProducerMoves(k) =>
      && k < |s.producers| && k < |AllPairs(g)|
      && (match s.producers[k]
          case Waiting => false
          case Finished => false
          case Sending(_) => s.closed || |s.queue| < g.capacity
          case _ => true)
    case HandOff(k) =>
      k < |s.producers| && s.producers[k].Sending? && !s.closed && s.queue == [] && s.consumer.Receiving?
    case ConsumerMoves =>
      (match s.consumer
       case Receiving => s.queue != [] || s.closed
       case Storing(_) => true
       case Ended => false)
  }

  function Next(g: Setting, s: State, move: Move): State
    requires Enabled(g, s, move)
  {
    match move
    case MainMoves =>
      (match s.main
       case Spawning(k) =>
         if k < |s.producers| then
           s.(main := Spawning(k + 1), producerWG := s.producerWG + 1, producers := s.producers[k := Probing])
         else s.(main := AwaitProducers)
       case AwaitProducers => s.(main := CloseChannel)
       case CloseChannel => s.(main := AwaitConsumer, closed := true, panicked := s.panicked || s.closed)
       case AwaitConsumer => s.(main := Returned)
       case Returned => s)
    case ProducerMoves(k) =>
      (match s.producers[k]
       case Probing =>
         (match Outcome(g, AllPairs(g)[k])
          case None => s.(producers := s.producers[k := Leaving])
          case Some(e) => s.(producers := s.producers[k := Sending(e)]))
       case Sending(e) =>
         if s.closed then s.(panicked := true, producers := s.producers[k := Finished])
         else s.(queue := s.queue + [e], producers := s.producers[k := Leaving])
       case _ =>
         s.(producers := s.producers[k := Finished], producerWG := s.producerWG - 1,
            panicked := s.panicked || s.producerWG <= 0))
    case HandOff(k) =>
      s.(consumer := Storing(s.producers[k].entry), producers := s.producers[k := Leaving])
    case ConsumerMoves =>
      (match s.consumer
       case Storing(e) => s.(matrix := Store(s.matrix, e), consumer := Receiving)
       case _ =>
         if s.queue != [] then s.(consumer := Storing(s.queue[0]), queue := s.queue[1..])
         else s.(consumer := Ended, conversionWG := s.conversionWG - 1, panicked := s.panicked || s.conversionWG <= 0))
  }

  // ---------- sums over the producers ----------

  function Total(f: Producer -> nat, producers: seq<Producer>): nat {
    if producers == [] then 0 else f(producers[0]) + Total(f, producers[1..])
  }

  lemma {:induction false} TotalUpdate(f: Producer -> nat, producers: seq<Producer>, k: nat, p: Producer)
    requires k < |producers|
    ensures Total(f, producers[k := p]) == Total(f, producers) - f(producers[k]) + f(p)
  {
    if k == 0 {
      assert producers[k := p][1..] == producers[1..];
    } else {
      TotalUpdate(f, producers[1..], k - 1, p);
      assert producers[k := p][1..] == producers[1..][k - 1 := p];
    }
  }

  lemma {:induction false} TotalBound(f: Producer -> nat, producers: seq<Producer>, k: nat)
    requires k < |producers|
    ensures f(producers[k]) <= Total(f, producers)
  {
    if k > 0 { TotalBound(f, producers[1..], k - 1); }
  }

  lemma {:induction false} TotalZero(f: Producer -> nat, producers: seq<Producer>)
    requires forall k :: 0 <= k < |producers| ==> f(producers[k]) == 0
    ensures Total(f, producers) == 0
  {
    if producers != [] { TotalZero(f, producers[1..]); }
  }

  /** The wait group counts a producer from its start to its end. */
  function Active(p: Producer): nat {
    if p.Waiting? || p.Finished? then 0 else 1
  }

  // ---------- the invariant ----------

  ghost predicate Genuine(g: Setting, e: Entry) {
    e.source in g.pods && e.destination in g.pods && Outcome(g, (e.source, e.destination)) == Some(e)
  }

  predicate InMatrix(m: Matrix, e: Entry) {
    e.source in m && e.destination in m[e.source] && m[e.source][e.destination] == e.value
  }

  /** Only genuine entries, and no empty rows. */
  ghost predicate Sound(g: Setting, m: Matrix) {
    && (forall s, d :: s in m && d in m[s] ==> Genuine(g, Entry(s, d, m[s][d])))
    && (forall s :: s in m ==> m[s] != map[])
  }

  /** A sent entry is in the channel, in the consumer's hand or in the matrix. */
  ghost predicate Delivered(s: State, e: Entry) {
    e in s.queue || s.consumer == Storing(e) || InMatrix(s.matrix, e)
  }

  ghost predicate ProducerInv(g: Setting, s: State, k: nat)
    requires k < |s.producers| && k < |AllPairs(g)|
  {
    var outcome := Outcome(g, AllPairs(g)[k]);
    match s.producers[k]
    case Sending(e) => outcome == Some(e)
    case Leaving => outcome.Some? ==> Delivered(s, outcome.value)
    case Finished => outcome.Some? ==> Delivered(s, outcome.value)
    case _ => true
  }

  ghost predicate Started(s: State) {
    forall k :: 0 <= k < |s.producers| ==> (s.producers[k].Waiting? <==> s.main.Spawning? && k >= s.main.next)
  }

  ghost predicate Inv(g: Setting, s: State) {
    && |s.producers| == |AllPairs(g)| && Started(s) && !s.panicked
    && (s.main.Spawning? ==> s.main.next <= |s.producers|) && |s.queue| <= g.capacity
    && s.producerWG == Total(Active, s.producers)
    && (s.main.CloseChannel? || s.closed ==> s.producerWG == 0)
    && (s.closed <==> s.main.AwaitConsumer? || s.main.Returned?)
    && s.conversionWG == (if s.consumer.Ended? then 0 else 1)
    && (s.consumer.Ended? ==> s.closed && s.queue == [])
    && (s.main.Returned? ==> s.consumer.Ended?)
    && (forall e :: e in s.queue ==> Genuine(g, e))
    && (s.consumer.Storing? ==> Genuine(g, s.consumer.entry))
    && Sound(g, s.matrix)
    && (forall k :: 0 <= k < |s.producers| ==> ProducerInv(g, s, k))
  }

  lemma {:induction false} PairsMembers(sources: seq<Pod>, destinations: seq<Pod>)
    ensures forall a, b :: (a, b) in Pairs(sources, destinations) <==> a in sources && b in destinations
  {
    if sources != [] {
      PairsMembers(sources[1..], destinations);
      forall a, b ensures (a, b) in Pairs(sources, destinations) <==> a in sources && b in destinations {
        assert (a, b) in Row(sources[0], destinations) <==> a == sources[0] && b in destinations by {
          if a == sources[0] && b in destinations {
            var i :| 0 <= i < |destinations| && destinations[i] == b;
            assert Row(sources[0], destinations)[i] == (a, b);
          }
        }
        assert a in sources <==> a == sources[0] || a in sources[1..];
      }
    }
  }

  lemma OutcomeGenuine(g: Setting, k: nat)
    requires k < |AllPairs(g)|
    ensures var outcome := Outcome(g, AllPairs(g)[k]); outcome.Some? ==> Genuine(g, outcome.value)
  {
    PairsMembers(g.pods, g.pods);
    assert AllPairs(g)[k] in AllPairs(g);
    var (a, b) := AllPairs(g)[k];
  }

  lemma StoreSound(g: Setting, m: Matrix, e: Entry)
    requires Sound(g, m) && Genuine(g, e)
    ensures Sound(g, Store(m, e)) && InMatrix(Store(m, e), e)
    ensures forall f :: Genuine(g, f) && InMatrix(m, f) ==> InMatrix(Store(m, e), f)
  {
    var stored := Store(m, e);
    assert e.destination in stored[e.source];
    forall f | Genuine(g, f) && InMatrix(m, f) ensures InMatrix(stored, f) {
      if f.source == e.source && f.destination == e.destination {
        assert f.value == e.value;
      }
    }
  }

  lemma InitialInv(g: Setting)
    ensures Inv(g, Initial(g))
  {
    TotalZero(Active, Initial(g).producers);
  }

  lemma MainKeepsInv(g: Setting, s: State)
    requires Inv(g, s) && Enabled(g, s, MainMoves)
    ensures Inv(g, Next(g, s, MainMoves))
  {
    var s' := Next(g, s, MainMoves);
    if s.main.Spawning? && s.main.next < |s.producers| {
      TotalUpdate(Active, s.producers, s.main.next, Probing);
    }
    forall k | 0 <= k < |s'.producers| ensures ProducerInv(g, s', k) { assert ProducerInv(g, s, k); }
  }

  lemma ProducerKeepsInv(g: Setting, s: State, j: nat)
    requires Inv(g, s) && Enabled(g, s, ProducerMoves(j))
    ensures Inv(g, Next(g, s, ProducerMoves(j)))
  {
    var s' := Next(g, s, ProducerMoves(j));
    TotalUpdate(Active, s.producers, j, s'.producers[j]);
    TotalBound(Active, s.producers, j);
    OutcomeGenuine(g, j);
    assert ProducerInv(g, s, j);
    forall k | 0 <= k < |s'.producers| ensures ProducerInv(g, s', k) { assert ProducerInv(g, s, k); }
  }

  lemma HandOffKeepsInv(g: Setting, s: State, j: nat)
    requires Inv(g, s) && Enabled(g, s, HandOff(j))
    ensures Inv(g, Next(g, s, HandOff(j)))
  {
    var s' := Next(g, s, HandOff(j));
    TotalUpdate(Active, s.producers, j, Leaving);
    OutcomeGenuine(g, j);
    assert ProducerInv(g, s, j);
    forall k | 0 <= k < |s'.producers| ensures ProducerInv(g, s', k) { assert ProducerInv(g, s, k); }
  }

  lemma ConsumerKeepsInv(g: Setting, s: State)
    requires Inv(g, s) && Enabled(g, s, ConsumerMoves)
    ensures Inv(g, Next(g, s, ConsumerMoves))
  {
    var s' := Next(g, s, ConsumerMoves);
    if s.consumer.Storing? {
      StoreSound(g, s.matrix, s.consumer.entry);
    }
    forall k | 0 <= k < |s'.producers| ensures ProducerInv(g, s', k) {
      assert ProducerInv(g, s, k);
      OutcomeGenuine(g, k);
    }
  }

  lemma NextKeepsInv(g: Setting, s: State, move: Move)
    requires Inv(g, s) && Enabled(g, s, move)
    ensures Inv(g, Next(g, s, move))
  {
    match move
    case MainMoves => MainKeepsInv(g, s);
    case ProducerMoves(k) => ProducerKeepsInv(g, s, k);
    case HandOff(k) => HandOffKeepsInv(g, s, k);
    case ConsumerMoves => ConsumerKeepsInv(g, s);
  }

  // ---------- no deadlock, termination ----------

  lemma {:induction false} SomeActive(producers: seq<Producer>) returns (k: nat)
    requires Total(Active, producers) > 0
    ensures k < |producers| && Active(producers[k]) > 0
  {
    if Active(producers[0]) > 0 {
      k := 0;
    } else {
      var rest := SomeActive(producers[1..]);
      k := rest + 1;
    }
  }

  /** Until the builder returns, some goroutine can move. */
  lemma NoDeadlock(g: Setting, s: State)
    requires Inv(g, s) && !s.main.Returned?
    ensures exists move :: Enabled(g, s, move)
  {
    if Enabled(g, s, MainMoves) || Enabled(g, s, ConsumerMoves) {
    } else {
      assert s.main.AwaitProducers?;
      var k := SomeActive(s.producers);
      assert Enabled(g, s, ProducerMoves(k)) || Enabled(g, s, HandOff(k));
    }
  }

  function Weight(p: Producer): nat {
    match p
    case Waiting => 6
    case Probing => 5
    case Sending(_) => 4
    case Leaving => 1
    case Finished => 0
  }

  function Measure(s: State): nat {
    (match s.main
     case Spawning(k) => 4 + if k < |s.producers| then |s.producers| - k else 0
     case AwaitProducers => 3
     case CloseChannel => 2
     case AwaitConsumer => 1
     case Returned => 0)
    + Total(Weight, s.producers)
    + 2 * |s.queue|
    + (match s.consumer case Receiving => 1 case Storing(_) => 2 case Ended => 0)
  }

  lemma MainDecreases(g: Setting, s: State)
    requires Inv(g, s) && Enabled(g, s, MainMoves)
    ensures Measure(Next(g, s, MainMoves)) < Measure(s)
  {
    hide Total, Outcome, Store, ProducerInv, Sound;
    if s.main.Spawning? && s.main.next < |s.producers| {
      TotalUpdate(Weight, s.producers, s.main.next, Probing);
      assert s.producers[s.main.next].Waiting?;
    }
  }

  lemma ProducerDecreases(g: Setting, s: State, k: nat)
    requires Inv(g, s) && Enabled(g, s, ProducerMoves(k))
    ensures Measure(Next(g, s, ProducerMoves(k))) < Measure(s)
  {
    hide Total, Outcome, Store, ProducerInv, Sound, Inv;
    var s' := Next(g, s, ProducerMoves(k));
    TotalUpdate(Weight, s.producers, k, s'.producers[k]);
    assert !s.panicked && (s.closed ==> !s.producers[k].Sending?) by { NoSendAfterClose(g, s, k); }
  }

  /** Once the channel is closed no producer is about to send. */
  lemma NoSendAfterClose(g: Setting, s: State, k: nat)
    requires Inv(g, s) && k < |s.producers|
    ensures !s.panicked && (s.closed ==> !s.producers[k].Sending?)
    ensures s.main.Spawning? ==> s.main.next <= |s.producers|
  {
    hide ProducerInv, Sound, Total, Outcome, Started;
    TotalBound(Active, s.producers, k);
  }

  lemma HandOffDecreases(g: Setting, s: State, k: nat)
    requires Inv(g, s) && Enabled(g, s, HandOff(k))
    ensures Measure(Next(g, s, HandOff(k))) < Measure(s)
  {
    hide Total, Outcome, Store, ProducerInv, Sound, Inv;
    TotalUpdate(Weight, s.producers, k, Leaving);
  }

  lemma ConsumerDecreases(g: Setting, s: State)
    requires Inv(g, s) && Enabled(g, s, ConsumerMoves)
    ensures Measure(Next(g, s, ConsumerMoves)) < Measure(s)
  {
    hide Total, Outcome, Store, ProducerInv, Sound, Inv;
  }

  lemma NextDecreases(g: Setting, s: State, move: Move)
    requires Inv(g, s) && Enabled(g, s, move)
    ensures Measure(Next(g, s, move)) < Measure(s)
  {
    hide Inv, Measure, Next, Enabled;
    match move
    case MainMoves => MainDecreases(g, s);
    case ProducerMoves(k) => ProducerDecreases(g, s, k);
    case HandOff(k) => HandOffDecreases(g, s, k);
    case ConsumerMoves => ConsumerDecreases(g, s);
  }

  // ---------- the result ----------

  /** Exactly the genuine entries, and no empty rows. */
  ghost predicate Exact(g: Setting, m: Matrix) {
    Sound(g, m) && forall e :: Genuine(g, e) ==> InMatrix(m, e)
  }

  /** For each two pods that are not nil, the matrix has what the probe between them returned, if it returned at all. */
  ghost predicate HoldsProbes(g: Setting, m: Matrix) {
    && (forall a, b :: a in m && b in m[a] ==>
          && a in g.pods && b in g.pods && a != Nil && b != Nil && g.probe(a, b) == Some(m[a][b]))
    && (forall a, b :: a in g.pods && b in g.pods && a != Nil && b != Nil && g.probe(a, b).Some? ==>
          a in m && b in m[a])
  }

  lemma ExactProbes(g: Setting, m: Matrix)
    requires Exact(g, m)
    ensures HoldsProbes(g, m)
  {
    forall a, b | a in m && b in m[a]
      ensures a in g.pods && b in g.pods && a != Nil && b != Nil && g.probe(a, b) == Some(m[a][b])
    {
      assert Genuine(g, Entry(a, b, m[a][b]));
    }
    forall a, b | a in g.pods && b in g.pods && a != Nil && b != Nil && g.probe(a, b).Some?
      ensures a in m && b in m[a]
    {
      var e := Entry(a, b, g.probe(a, b).value);
      assert Genuine(g, e);
      assert InMatrix(m, e);
    }
  }

  lemma ExactUnique(g: Setting, m: Matrix, n: Matrix)
    requires Exact(g, m) && Exact(g, n)
    ensures m == n
  {
    ExactIncluded(g, m, n);
    ExactIncluded(g, n, m);
    IncludedBothWays(m, n);
  }

  ghost predicate Included(m: Matrix, n: Matrix) {
    forall s :: s in m ==> s in n && RowIncluded(m[s], n[s])
  }

  ghost predicate RowIncluded(row: map<Pod, bool>, other: map<Pod, bool>) {
    forall d :: d in row ==> d in other && other[d] == row[d]
  }

  lemma IncludedBothWays(m: Matrix, n: Matrix)
    requires Included(m, n) && Included(n, m)
    ensures m == n
  {
    forall s | s in m ensures m[s] == n[s] {
      assert RowIncluded(m[s], n[s]) && RowIncluded(n[s], m[s]);
    }
  }

  lemma ExactIncluded(g: Setting, m: Matrix, n: Matrix)
    requires Exact(g, m) && Exact(g, n)
    ensures Included(m, n)
  {
    forall s | s in m ensures s in n && RowIncluded(m[s], n[s]) {
      forall d | d in m[s] ensures s in n && d in n[s] && n[s][d] == m[s][d] {
        assert InMatrix(n, Entry(s, d, m[s][d]));
      }
      var d :| d in m[s];
    }
  }

  lemma {:induction false} StoreAllExact(g: Setting, pairs: seq<(Pod, Pod)>)
    requires forall k :: 0 <= k < |pairs| ==> pairs[k].0 in g.pods && pairs[k].1 in g.pods
    ensures Sound(g, StoreAll(g, map[], pairs))
    ensures forall e :: Genuine(g, e) && (e.source, e.destination) in pairs ==> InMatrix(StoreAll(g, map[], pairs), e)
  {
    if pairs != [] {
      var front, last := pairs[..|pairs| - 1], pairs[|pairs| - 1];
      StoreAllExact(g, front);
      var outcome := Outcome(g, last);
      if outcome.Some? {
        assert last == (last.0, last.1);
        assert outcome.value.source == last.0 && outcome.value.destination == last.1;
        StoreSound(g, StoreAll(g, map[], front), outcome.value);
      }
      forall e | Genuine(g, e) && (e.source, e.destination) in pairs
        ensures InMatrix(StoreAll(g, map[], pairs), e)
      {
        if (e.source, e.destination) == last {
          assert outcome == Some(e);
        } else {
          assert (e.source, e.destination) in front;
        }
      }
    }
  }

  lemma SequentialExact(g: Setting)
    ensures Exact(g, SequentialMatrix(g))
  {
    PairsMembers(g.pods, g.pods);
    forall k | 0 <= k < |AllPairs(g)| ensures AllPairs(g)[k].0 in g.pods && AllPairs(g)[k].1 in g.pods {
      var (a, b) := AllPairs(g)[k];
      assert (a, b) in AllPairs(g);
    }
    StoreAllExact(g, AllPairs(g));
  }

  lemma ReturnedExact(g: Setting, s: State)
    requires Inv(g, s) && s.main.Returned?
    ensures Exact(g, s.matrix)
  {
    PairsMembers(g.pods, g.pods);
    forall e | Genuine(g, e) ensures InMatrix(s.matrix, e) {
      assert (e.source, e.destination) in AllPairs(g);
      var k :| 0 <= k < |AllPairs(g)| && AllPairs(g)[k] == (e.source, e.destination);
      TotalBound(Active, s.producers, k);
      assert s.producers[k].Finished?;
      assert ProducerInv(g, s, k);
    }
  }

  // ---------- every schedule ----------

  /** `moves` is a schedule the goroutines can follow from `s`. */
  ghost predicate IsSchedule(g: Setting, s: State, moves: seq<Move>)
    decreases |moves|
  {
    moves == [] || (Enabled(g, s, moves[0]) && IsSchedule(g, Next(g, s, moves[0]), moves[1..]))
  }

  ghost function After(g: Setting, s: State, moves: seq<Move>): State
    requires IsSchedule(g, s, moves)
    decreases |moves|
  {
    if moves == [] then s else After(g, Next(g, s, moves[0]), moves[1..])
  }

  lemma {:induction false} ScheduleInv(g: Setting, s: State, moves: seq<Move>)
    requires Inv(g, s) && IsSchedule(g, s, moves)
    ensures Inv(g, After(g, s, moves)) && |moves| + Measure(After(g, s, moves)) <= Measure(s)
    decreases |moves|
  {
    if moves != [] {
      NextKeepsInv(g, s, moves[0]);
      NextDecreases(g, s, moves[0]);
      ScheduleInv(g, Next(g, s, moves[0]), moves[1..]);
    }
  }

  /** No close and no send on a closed channel, and no wait group counted down below zero, is about to happen. */
  ghost predicate NoMisuse(s: State) {
    && (s.main.CloseChannel? ==> !s.closed)
    && (forall k :: 0 <= k < |s.producers| && s.producers[k].Sending? ==> !s.closed)
    && (forall k :: 0 <= k < |s.producers| && !s.producers[k].Waiting? && !s.producers[k].Finished? ==>
          s.producerWG > 0)
    && (!s.consumer.Ended? ==> s.conversionWG > 0)
  }

  lemma ActiveCounted(g: Setting, s: State, k: nat)
    requires Inv(g, s) && k < |s.producers| && Active(s.producers[k]) == 1
    ensures s.producerWG > 0 && !s.closed
  {
    TotalBound(Active, s.producers, k);
  }

  lemma InvNoMisuse(g: Setting, s: State)
    requires Inv(g, s)
    ensures NoMisuse(s)
  {
    forall k | 0 <= k < |s.producers| && !s.producers[k].Waiting? && !s.producers[k].Finished?
      ensures s.producerWG > 0 && !s.closed
    {
      ActiveCounted(g, s, k);
    }
  }

  /** A sender waits exactly while the channel is full. */
  lemma WaitsExactly(g: Setting, s: State, k: nat)
    requires Inv(g, s) && k < |s.producers| && s.producers[k].Sending?
    ensures !Enabled(g, s, ProducerMoves(k)) <==> |s.queue| == g.capacity
  {
    ActiveCounted(g, s, k);
  }

  /**
   * Whatever the scheduling, the probe results and the channel capacity: nothing panics (no send on the closed
   * channel, no double close, no negative wait group), some goroutine can move until the builder returns, every
   * schedule is bounded, and on return the matrix is the one of the sequential double loop.
   */
  lemma EverySchedule(g: Setting, moves: seq<Move>)
    requires IsSchedule(g, Initial(g), moves)
    ensures var s := After(g, Initial(g), moves);
            && !s.panicked && NoMisuse(s) && |s.queue| <= g.capacity
            && |moves| <= Measure(Initial(g))
            && (!s.main.Returned? ==> exists move :: Enabled(g, s, move))
            && (s.main.Returned? ==>
                  s.matrix == SequentialMatrix(g) && Exact(g, s.matrix) && HoldsProbes(g, s.matrix))
  {
    InitialInv(g);
    ScheduleInv(g, Initial(g), moves);
    var s := After(g, Initial(g), moves);
    InvNoMisuse(g, s);
    if s.main.Returned? {
      ReturnedExact(g, s);
      SequentialExact(g);
      ExactUnique(g, s.matrix, SequentialMatrix(g));
      ExactProbes(g, s.matrix);
    } else {
      NoDeadlock(g, s);
    }
  }
}