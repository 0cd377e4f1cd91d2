// The multi-producer single-consumer queue of c_queue.cpp under arbitrary interleaving: one
// SPSC ring per producer, a bitmap of producers that have pushed since the consumer last
// looked, and a ring of the consumer's own that `inspect` fills from the producers' rings.
module MpscProtocol {
  import opened Tickets
  import Spsc = SpscProtocol

  /** The buffer of `inspect`: items[8]. */
  const BATCH: nat := 8

  const MAX_PRODUCERS: nat := 64

  /** An item in the consumer ring, with the producer it came from. */
  datatype Tagged = Tagged(producer: nat, item: u64)

  /** Where the consumer is between two accesses of shared memory or of its own ring. */
  datatype ConsPc =
    | Outside                                   // inspect may be called; nothing inspected yet
    | InspectedNone                             // inspect returned false
    | Released(more: bool)                      // release returned
    | Exchange                                  // own ring empty: exchange the bitmap with 0
    | Drain(i: nat)                             // head of the drain loops, at producer i
    | Popping(i: nat)                           // inside the batched pop from producer i's ring
    | Adding(i: nat, items: seq<u64>)           // inside add_multiple
    | Overflow(i: nat, items: seq<u64>)         // the assertion on a full consumer ring fired
    | Holding(begin: nat, idx: nat, end: nat)   // inspect returned [begin, end), read up to idx
    | ReleaseLoad                               // own ring empty after release: load the bitmap

  /**
   * `dirty` is the bitmap, `notify[i]` says that producer i has enqueued and sets its bit
   * next. The last three fields are history: every item ever added to the consumer ring,
   * how many of them have been released, and every item read out.
   */
  datatype State = State(
    rings: seq<Spsc.State>, notify: seq<bool>, dirty: set<nat>,
    slots: seq<u64>, writer: nat, reader: nat, cons: ConsPc,
    moved: seq<Tagged>, released: nat, delivered: seq<u64>)

  /** A push by a producer, or a step of the consumer under the inspect, read, release discipline. */
  datatype Move = Produce(i: nat, item: u64) | Consume

  predicate Shape(s: State) {
    && 1 <= |s.rings| <= MAX_PRODUCERS && |s.notify| == |s.rings|
    && (forall i | 0 <= i < |s.rings| :: Spsc.Shape(s.rings[i]))
    && |s.slots| >= 2 && s.writer < |s.slots| && s.reader < |s.slots|
    && (s.cons.Holding? ==> s.cons.idx < |s.slots| && s.cons.end < |s.slots|)
    && (s.cons.Popping? ==> s.cons.i < |s.rings|)
  }

  /** The queue for `producers` producers of `items` items each. */
  function Init(producers: nat, items: nat): (s: State)
    requires 1 <= producers <= MAX_PRODUCERS && items >= 1
    ensures Shape(s)
  {
    RingRoom(producers, items);
    State(seq(producers, i => Spsc.Init(items + 1)), seq(producers, i => false), {},
          seq(producers * items + 1, i => 0), 0, 0, Outside, [], 0, [])
  }

  lemma RingRoom(producers: nat, items: nat)
    requires producers >= 1 && items >= 1
    ensures producers * items >= 1
  {
  }

  /** One access of `push` by producer i. */
  function ProduceStep(s: State, i: nat, item: u64): (s': State)
    requires Shape(s) && i < |s.rings|
    ensures Shape(s') && |s'.rings| == |s.rings|
  {
    if s.notify[i] then
      s.(dirty := s.dirty + {i}, notify := s.notify[i := false])
    else
      var ring := Spsc.ProdStep(s.rings[i], item);
      s.(rings := s.rings[i := ring], notify := s.notify[i := s.rings[i].prod.ProdStore?])
  }

  /** What `inspect` answers from the consumer ring. */
  function InspectOwn(s: State): ConsPc {
    if s.reader == s.writer then InspectedNone else Holding(s.reader, s.reader, s.writer)
  }

  /** One step of the batched pop inside the drain loop. */
  function PopStep(s: State, i: nat): (s': State)
    requires Shape(s) && i < |s.rings|
    ensures Shape(s') && |s'.rings| == |s.rings|
  {
    var ring := Spsc.ConsStep(s.rings[i], BATCH);
    var pc := if !ring.cons.ConsReturned? then Popping(i)
              else if ring.cons.got == [] then Drain(i + 1)
              else Adding(i, ring.cons.got);
    s.(rings := s.rings[i := ring], cons := pc)
  }

  /** One step of add_multiple. */
  function AddStep(s: State, i: nat, items: seq<u64>): (s': State)
    requires Shape(s)
    ensures Shape(s') && |s'.rings| == |s.rings|
  {
    var next := Spsc.Next(s.writer, |s.slots|);
    if items == [] then s.(cons := Drain(i))
    else if next == s.reader then s.(cons := Overflow(i, items))
    else s.(slots := s.slots[s.writer := items[0]], writer := next,
            moved := s.moved + [Tagged(i, items[0])], cons := Adding(i, items[1..]))
  }

  /** One step of the consumer: inspect, read to the end, release. */
  function ConsumeStep(s: State): (s': State)
    requires Shape(s)
    ensures Shape(s') && |s'.rings| == |s.rings|
  {
    match s.cons
    case Outside => s.(cons := if s.reader == s.writer then Exchange else InspectOwn(s))
    case InspectedNone => s.(cons := if s.reader == s.writer then Exchange else InspectOwn(s))
    case Released(_) => s.(cons := if s.reader == s.writer then Exchange else InspectOwn(s))
    case Exchange => s.(dirty := {}, cons := if s.dirty == {} then InspectedNone else Drain(0))
    case Drain(i) =>
      if i < |s.rings| then PopStep(s, i)
      else s.(cons := InspectOwn(s))
    case Popping(i) => PopStep(s, i)
    case Adding(i, items) => AddStep(s, i, items)
    case Overflow(_, _) => s
    case Holding(begin, idx, end) =>
      if idx != end then
        s.(delivered := s.delivered + [s.slots[idx]], cons := Holding(begin, Spsc.Next(idx, |s.slots|), end))
      else
        s.(reader := end, released := |s.delivered|, cons := if end == s.writer then ReleaseLoad else Released(true))
    case ReleaseLoad => s.(cons := Released(s.dirty != {}))
  }

  /** A push with an index that no producer has returns false and changes nothing. */
  function Step(s: State, m: Move): (s': State)
    requires Shape(s)
    ensures Shape(s') && |s'.rings| == |s.rings|
  {
    match m
    case Produce(i, item) => if i < |s.rings| then ProduceStep(s, i, item) else s
    case Consume => ConsumeStep(s)
  }

  function Run(s: State, schedule: seq<Move>): (s': State)
    requires Shape(s)
    ensures Shape(s') && |s'.rings| == |s.rings|
    decreases |schedule|
  {
    if schedule == [] then s
    else
      var n := |schedule| - 1;
      Step(Run(s, schedule[..n]), schedule[n])
  }

  // ---- history ------------------------------------------------------------------------

  /** The items of one producer, in order. */
  function OfProducer(tagged: seq<Tagged>, i: nat): seq<u64> {
    if tagged == [] then []
    else
      var n := |tagged| - 1;
      OfProducer(tagged[..n], i) + if tagged[n].producer == i then [tagged[n].item] else []
  }

  /** Dequeued from producer i's ring and not yet added to the consumer ring. */
  function InHand(s: State, i: nat): seq<u64> {
    if (s.cons.Adding? || s.cons.Overflow?) && s.cons.i == i then s.cons.items else []
  }

  /** Stored in producer i's ring and not yet dequeued. */
  function Waiting(ring: Spsc.State): seq<u64> {
    if |ring.popped| <= |ring.pushed| then ring.pushed[|ring.popped|..] else []
  }

  lemma OfProducerSnoc(tagged: seq<Tagged>, x: Tagged, i: nat)
    ensures OfProducer(tagged + [x], i) == OfProducer(tagged, i) + if x.producer == i then [x.item] else []
  {
    assert (tagged + [x])[..|tagged|] == tagged;
  }

  lemma {:induction false} OfProducerSplit(a: seq<Tagged>, b: seq<Tagged>, i: nat)
    ensures OfProducer(a + b, i) == OfProducer(a, i) + OfProducer(b, i)
  {
    if b == [] {
      assert a + b == a;
    } else {
      var n := |b| - 1;
      OfProducerSplit(a, b[..n], i);
      assert a + b == (a + b[..n]) + [b[n]];
      OfProducerSnoc(a + b[..n], b[n], i);
    }
  }

  // ---- the invariant ------------------------------------------------------------------

  /** The batched pop in progress is one of the drain loop's. */
  predicate BatchPop(pc: Spsc.ConsPc) {
    !pc.ConsReturned? && pc.count == BATCH
  }

  ghost predicate RingsInv(s: State) {
    && Shape(s)
    && (forall i | 0 <= i < |s.rings| :: Spsc.Inv(s.rings[i]))
    && (forall i | 0 <= i < |s.rings| ::
          if s.cons.Popping? && s.cons.i == i then BatchPop(s.rings[i].cons)
          else s.rings[i].cons.ConsReturned?)
    && (forall i | 0 <= i < |s.rings| :: s.notify[i] ==> s.rings[i].prod.ProdReturned?)
  }

  /** The consumer ring holds what was moved and not released. */
  ghost predicate OwnInv(s: State)
    requires Shape(s)
  {
    var cap := |s.slots|;
    && s.released <= |s.delivered| <= |s.moved| <= s.released + cap - 1
    && s.writer == Idx(|s.moved|, cap) && s.reader == Idx(s.released, cap)
    && (forall k: nat :: s.released <= k < |s.moved| ==> s.slots[Idx(k, cap)] == s.moved[k].item)
    && (forall k: nat :: k < |s.delivered| ==> s.delivered[k] == s.moved[k].item)
    && (forall k: nat :: k < |s.moved| ==> s.moved[k].producer < |s.rings|)
  }

  ghost predicate ConsOk(s: State)
    requires Shape(s)
  {
    match s.cons
    case Holding(begin, idx, end) =>
      begin == s.reader && end == s.writer && begin != end && idx == Idx(|s.delivered|, |s.slots|)
    case ReleaseLoad => s.released == |s.delivered| == |s.moved|
    case Exchange => s.released == |s.delivered| == |s.moved|
    case InspectedNone => s.released == |s.delivered| == |s.moved|
    case Outside => s.released == |s.delivered| == |s.moved|
    case Released(_) => s.released == |s.delivered| == |s.moved|
    case Adding(i, items) => i < |s.rings| && s.released == |s.delivered|
    case Overflow(i, items) =>
      i < |s.rings| && items != [] && s.released == |s.delivered| && |s.moved| == s.released + |s.slots| - 1
    case _ => s.released == |s.delivered|
  }

  /** What left producer i's ring is in the consumer ring, was in it, or is in hand. */
  ghost predicate FlowInv(s: State)
    requires Shape(s)
  {
    forall i | 0 <= i < |s.rings| :: OfProducer(s.moved, i) + InHand(s, i) == s.rings[i].popped
  }

  /** The drain loop has still to visit ring i, or to visit it again. */
  predicate DrainCovers(pc: ConsPc, i: nat) {
    match pc
    case Drain(j) => j <= i
    case Popping(j) => j <= i
    case Adding(j, _) => j <= i
    case Overflow(_, _) => true
    case _ => false
  }

  /** An item waiting in a producer's ring is announced, about to be, or about to be found. */
  ghost predicate NoLostNotification(s: State)
    requires Shape(s)
  {
    forall i | 0 <= i < |s.rings| && Waiting(s.rings[i]) != [] ::
      i in s.dirty || s.notify[i] || DrainCovers(s.cons, i)
  }

  ghost predicate Inv(s: State) {
    RingsInv(s) && OwnInv(s) && ConsOk(s) && FlowInv(s) && NoLostNotification(s)
  }

  lemma InitInv(producers: nat, items: nat)
    requires 1 <= producers <= MAX_PRODUCERS && items >= 1
    ensures Inv(Init(producers, items))
  {
    Spsc.InitInv(items + 1);
  }

  // ---- the steps keep the invariant ---------------------------------------------------

  /** One access of a push, as the rest of the queue sees it. */
  lemma PushEffect(ring: Spsc.State, item: u64)
    requires Spsc.Inv(ring)
    ensures var ring' := Spsc.ProdStep(ring, item);
      && Spsc.Inv(ring') && ring'.cons == ring.cons && ring'.popped == ring.popped
      && (if ring.prod.ProdStore? then ring'.prod.ProdReturned? && |ring'.pushed| == |ring.pushed| + 1
          else ring'.pushed == ring.pushed)
  {
    Spsc.ProdKeeps(ring, item);
  }

  lemma ProduceKeeps(s: State, i: nat, item: u64)
    requires Inv(s) && i < |s.rings|
    ensures Inv(ProduceStep(s, i, item))
  {
    ProduceRings(s, i, item);
    ProduceNotify(s, i, item);
    ProduceRest(s, i, item);
    hide RingsInv, OwnInv, ConsOk, FlowInv, NoLostNotification, ProduceStep;
  }

  lemma ProduceRings(s: State, i: nat, item: u64)
    requires RingsInv(s) && i < |s.rings|
    ensures RingsInv(ProduceStep(s, i, item))
  {
    PushEffect(s.rings[i], item);
    hide Idx, Spsc.Inv, Spsc.ProdStep, Spsc.Shape;
  }

  lemma ProduceNotify(s: State, i: nat, item: u64)
    requires RingsInv(s) && NoLostNotification(s) && i < |s.rings|
    ensures NoLostNotification(ProduceStep(s, i, item))
  {
    PushEffect(s.rings[i], item);
    hide Idx, Spsc.Inv, Spsc.ProdStep, Spsc.Shape;
  }

  lemma ProduceRest(s: State, i: nat, item: u64)
    requires Inv(s) && i < |s.rings|
    ensures var s' := ProduceStep(s, i, item); OwnInv(s') && ConsOk(s') && FlowInv(s')
  {
    PushEffect(s.rings[i], item);
    hide Idx, Spsc.Inv, Spsc.ProdStep, Spsc.Shape, NoLostNotification, RingsInv, OfProducer;
  }

  /** One step of a drain-loop batch, as the rest of the queue sees it. */
  lemma BatchEffect(ring: Spsc.State)
    requires Spsc.Inv(ring) && (ring.cons.ConsReturned? || BatchPop(ring.cons))
    ensures var ring' := Spsc.ConsStep(ring, BATCH);
      && Spsc.Inv(ring') && ring'.prod == ring.prod && ring'.pushed == ring.pushed
      && (if !ring'.cons.ConsReturned? then BatchPop(ring'.cons) && ring'.popped == ring.popped
          else if ring'.cons.got == [] then ring'.popped == ring.popped == ring.pushed
          else ring'.popped == ring.popped + ring'.cons.got)
  {
    Spsc.ConsKeeps(ring, BATCH);
    Spsc.EmptyTest(|ring.pushed|, |ring.popped|, ring.cap);
  }

  lemma PopKeeps(s: State, i: nat)
    requires Inv(s) && i < |s.rings| && (s.cons == Drain(i) || s.cons == Popping(i))
    ensures Inv(PopStep(s, i))
  {
    PopRings(s, i);
    PopFlow(s, i);
    PopNotify(s, i);
    PopOwn(s, i);
    hide RingsInv, OwnInv, ConsOk, FlowInv, NoLostNotification, PopStep;
  }

  lemma PopOwn(s: State, i: nat)
    requires Shape(s) && OwnInv(s) && ConsOk(s) && i < |s.rings| && (s.cons == Drain(i) || s.cons == Popping(i))
    ensures OwnInv(PopStep(s, i)) && ConsOk(PopStep(s, i))
  {
    hide Idx, Spsc.ConsStep, Spsc.Shape;
  }

  lemma PopRings(s: State, i: nat)
    requires RingsInv(s) && i < |s.rings| && (s.cons == Drain(i) || s.cons == Popping(i))
    ensures RingsInv(PopStep(s, i))
  {
    BatchEffect(s.rings[i]);
    hide Idx, Spsc.Inv, Spsc.ConsStep, Spsc.Shape;
  }

  /** What a batch takes out of a ring is in hand; before it nothing is. */
  lemma PopTakes(s: State, i: nat, j: nat)
    requires RingsInv(s) && i < |s.rings| && (s.cons == Drain(i) || s.cons == Popping(i)) && j < |s.rings|
    ensures InHand(s, j) == [] && PopStep(s, i).moved == s.moved
    ensures PopStep(s, i).rings[j].popped == s.rings[j].popped + InHand(PopStep(s, i), j)
  {
    BatchEffect(s.rings[i]);
    hide Idx, Spsc.Inv, Spsc.ConsStep, Spsc.Shape, RingsInv;
    assert s.rings[j].popped + [] == s.rings[j].popped;
  }

  lemma PopFlow(s: State, i: nat)
    requires RingsInv(s) && FlowInv(s) && i < |s.rings| && (s.cons == Drain(i) || s.cons == Popping(i))
    ensures FlowInv(PopStep(s, i))
  {
    assert Shape(s);
    hide RingsInv, PopStep, OfProducer, InHand;
    var s' := PopStep(s, i);
    forall j | 0 <= j < |s.rings| ensures OfProducer(s'.moved, j) + InHand(s', j) == s'.rings[j].popped {
      PopTakes(s, i, j);
      TakeInHand(OfProducer(s.moved, j), InHand(s, j), s.rings[j].popped, InHand(s', j));
    }
  }

  lemma TakeInHand(moved: seq<u64>, hand: seq<u64>, popped: seq<u64>, taken: seq<u64>)
    requires moved + hand == popped && hand == []
    ensures moved + taken == popped + taken
  {
    assert moved + [] == moved;
  }

  lemma PopNotify(s: State, i: nat)
    requires RingsInv(s) && NoLostNotification(s) && i < |s.rings| && (s.cons == Drain(i) || s.cons == Popping(i))
    ensures NoLostNotification(PopStep(s, i))
  {
    BatchEffect(s.rings[i]);
    hide Idx, Spsc.Inv, Spsc.ConsStep, Spsc.Shape;
  }

  lemma AddKeeps(s: State)
    requires Inv(s) && s.cons.Adding?
    ensures Inv(ConsumeStep(s))
  {
    AddOwn(s);
    AddFlow(s);
    AddRest(s);
    hide RingsInv, OwnInv, ConsOk, FlowInv, NoLostNotification, ConsumeStep;
  }

  lemma AddRest(s: State)
    requires RingsInv(s) && NoLostNotification(s) && s.cons.Adding?
    ensures RingsInv(ConsumeStep(s)) && NoLostNotification(ConsumeStep(s))
  {
    hide Idx, Spsc.Inv, Spsc.Shape;
  }

  lemma AddOwn(s: State)
    requires RingsInv(s) && OwnInv(s) && ConsOk(s) && s.cons.Adding?
    ensures OwnInv(ConsumeStep(s)) && ConsOk(ConsumeStep(s))
  {
    var s' := ConsumeStep(s);
    var cap := |s.slots|;
    Spsc.FullTest(|s.moved|, s.released, cap);
    Spsc.NextOk(|s.moved|, cap);
    if s'.cons.Adding? {
      forall k: nat | s.released <= k < |s'.moved| ensures s'.slots[Idx(k, cap)] == s'.moved[k].item {
        if k < |s.moved| {
          Spsc.Distinct(k, |s.moved|, cap);
        }
      }
    }
    hide Idx, Spsc.Inv, Spsc.Shape, RingsInv;
  }

  lemma AddFlow(s: State)
    requires Shape(s) && FlowInv(s) && s.cons.Adding?
    ensures FlowInv(ConsumeStep(s))
  {
    hide Idx, Spsc.Shape, OfProducer;
    var s' := ConsumeStep(s);
    if s'.cons.Adding? {
      forall j | 0 <= j < |s.rings| ensures OfProducer(s'.moved, j) + InHand(s', j) == s.rings[j].popped {
        OfProducerSnoc(s.moved, Tagged(s.cons.i, s.cons.items[0]), j);
      }
    }
  }

  lemma ReadKeeps(s: State)
    requires Inv(s) && s.cons.Holding?
    ensures Inv(ConsumeStep(s))
  {
    var cap := |s.slots|;
    Spsc.EmptyTest(|s.moved|, |s.delivered|, cap);
    Spsc.NextOk(|s.delivered|, cap);
    hide Idx, Spsc.Inv, Spsc.Shape;
  }

  lemma OtherKeeps(s: State)
    requires Inv(s) && !s.cons.Adding? && !s.cons.Holding? && !s.cons.Popping?
    requires !(s.cons.Drain? && s.cons.i < |s.rings|)
    ensures Inv(ConsumeStep(s))
  {
    Spsc.EmptyTest(|s.moved|, s.released, |s.slots|);
    hide Idx, Spsc.Inv, Spsc.Shape;
    match s.cons
    case Exchange =>
    case Drain(_) =>
    case _ =>
  }

  lemma ConsumeKeeps(s: State)
    requires Inv(s)
    ensures Inv(ConsumeStep(s))
  {
    hide OwnInv, ConsOk, FlowInv, NoLostNotification, Spsc.Inv, Spsc.Shape, AddStep, PopStep;
    if s.cons.Adding? {
      AddKeeps(s);
    } else if s.cons.Holding? {
      ReadKeeps(s);
    } else if s.cons.Popping? || (s.cons.Drain? && s.cons.i < |s.rings|) {
      PopKeeps(s, s.cons.i);
    } else {
      OtherKeeps(s);
    }
  }

  /** Every interleaving of the producers with the consumer keeps the invariant. */
  lemma {:induction false} RunInv(s: State, schedule: seq<Move>)
    requires Inv(s)
    ensures Inv(Run(s, schedule))
    decreases |schedule|
  {
    if schedule != [] {
      var n := |schedule| - 1;
      RunInv(s, schedule[..n]);
      match schedule[n]
      case Produce(i, item) =>
        if i < |s.rings| { ProduceKeeps(Run(s, schedule[..n]), i, item); }
      case Consume => ConsumeKeeps(Run(s, schedule[..n]));
    }
  }
}
