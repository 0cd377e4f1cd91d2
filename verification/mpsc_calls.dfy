// What whole calls of the multi-producer single-consumer queue do, whatever interleaves.
module MpscCalls {
  import opened Tickets
  import Spsc = SpscProtocol
  import S = SpscCalls
  import opened MpscProtocol
  import opened MpscTheorems

  /** A producer's move leaves the consumer and the other producers alone, and the consumer's move the producers. */
  lemma MoveLocal(s: State, m: Move)
    requires Shape(s)
    ensures var s' := Step(s, m);
      && (m.Produce? ==>
            && s'.cons == s.cons && s'.slots == s.slots && s'.writer == s.writer && s'.reader == s.reader
            && s'.moved == s.moved && s'.released == s.released && s'.delivered == s.delivered
            && forall j | 0 <= j < |s.rings| && j != m.i ::
                 s'.rings[j] == s.rings[j] && s'.notify[j] == s.notify[j] && (j in s'.dirty <==> j in s.dirty))
      && (m.Consume? ==>
            && s'.notify == s.notify && s'.dirty <= s.dirty
            && forall j | 0 <= j < |s.rings| ::
                 s'.rings[j].prod == s.rings[j].prod && s'.rings[j].pushed == s.rings[j].pushed)
  {
    hide Spsc.Shape;
  }

  // ---- what a push was given, did and returned ----------------------------------------

  /** What is seen from outside of producer i's latest push; its last move, which announces it, belongs to it. */
  function Observe(log: S.PushLog, before: State, after: State, i: nat, m: Move): S.PushLog
    requires |before.rings| == |before.notify| == |after.rings| && i < |before.rings|
  {
    if !(m.Produce? && m.i == i) then log
    else if before.notify[i] then
      if log.Pushed? then log.(added := log.added + S.Added(before.rings[i].pushed, after.rings[i].pushed)) else log
    else S.ObservePush(log, before.rings[i], after.rings[i], Spsc.ProdMove(m.item))
  }

  function PushLogOf(s: State, schedule: seq<Move>, i: nat): S.PushLog
    requires Shape(s) && i < |s.rings|
    decreases |schedule|
  {
    if schedule == [] then S.NotPushed
    else
      var n := |schedule| - 1;
      var before := Run(s, schedule[..n]);
      Observe(PushLogOf(s, schedule[..n], i), before, Step(before, schedule[n]), i, schedule[n])
  }

  ghost predicate Tracks(s: State, i: nat, log: S.PushLog)
    requires Shape(s) && i < |s.rings|
  {
    S.TracksPush(s.rings[i], log) && (s.notify[i] ==> s.rings[i].prod == Spsc.ProdReturned(true))
  }

  lemma MoveTracks(s: State, m: Move, i: nat, log: S.PushLog)
    requires Shape(s) && i < |s.rings| && Tracks(s, i, log)
    ensures Tracks(Step(s, m), i, Observe(log, s, Step(s, m), i, m))
  {
    MoveLocal(s, m);
    if m.Produce? && m.i == i && !s.notify[i] {
      S.PushMoveTracks(s.rings[i], Spsc.ProdMove(m.item), log);
    }
    hide Spsc.Shape, S.ObservePush;
  }

  lemma {:induction false} PushTracks(s: State, schedule: seq<Move>, i: nat)
    requires Shape(s) && i < |s.rings| && !s.notify[i] && s.rings[i].prod == Spsc.ProdReturned(false)
    ensures Tracks(Run(s, schedule), i, PushLogOf(s, schedule, i))
    decreases |schedule|
  {
    if schedule != [] {
      hide Step, Tracks, Observe, Shape;
      var n := |schedule| - 1;
      PushTracks(s, schedule[..n], i);
      MoveTracks(Run(s, schedule[..n]), schedule[n], i, PushLogOf(s, schedule[..n], i));
    }
  }

  /**
   * In every run: a push that succeeded added exactly the item it was given to its
   * producer's ring, one that failed nothing, and only a success is announced.
   */
  lemma PushCall(producers: nat, items: nat, schedule: seq<Move>, i: nat)
    requires 1 <= producers <= MAX_PRODUCERS && items >= 1 && i < producers
    ensures var s0 := Init(producers, items);
      var s, log := Run(s0, schedule), PushLogOf(s0, schedule, i);
      && (s.rings[i].prod.ProdReturned? && log.Pushed? ==> log.added == if s.rings[i].prod.ok then [log.item] else [])
      && (s.notify[i] ==> s.rings[i].prod == Spsc.ProdReturned(true))
  {
    PushTracks(Init(producers, items), schedule, i);
  }

  /** A push fails exactly when its ring is full at the reload of the read index. */
  lemma PushRefusalIff(s: State, items: nat, i: nat, x: u64)
    requires Reachable(s, items) && i < |s.rings| && !s.notify[i] && !s.rings[i].prod.ProdReturned?
    ensures ProduceStep(s, i, x).rings[i].prod == Spsc.ProdReturned(false)
      <==> s.rings[i].prod.ProdRefresh? && |Waiting(s.rings[i])| == items
  {
    ReachableInv(s, items);
    var ring := s.rings[i];
    assert Spsc.Inv(ring) && ring.cap == items + 1;
    hide Inv, Reachable, Waiting;
    RingSplit(ring);
    RefusesWhenFull(ring, x);
  }

  lemma RefusesWhenFull(ring: Spsc.State, x: u64)
    requires Spsc.Inv(ring) && !ring.prod.ProdReturned?
    ensures Spsc.ProdStep(ring, x).prod == Spsc.ProdReturned(false)
      <==> ring.prod.ProdRefresh? && |ring.pushed| - |ring.popped| == ring.cap - 1
  {
    Spsc.FullTest(|ring.pushed|, |ring.popped|, ring.cap);
    hide Idx;
  }

  /** How many moves of its own producer i is at most from the end of its push. */
  function PushRank(s: State, i: nat): nat
    requires |s.rings| == |s.notify| && i < |s.rings|
  {
    if s.notify[i] then 1
    else if s.rings[i].prod.ProdReturned? then 0
    else S.PushRank(s.rings[i]) + 1
  }

  /** A push is wait-free: each of its moves brings it nearer to its end, and no other move takes it back. */
  lemma PushRanks(s: State, items: nat, m: Move, i: nat)
    requires Reachable(s, items) && i < |s.rings|
    ensures if m.Produce? && m.i == i
      then if PushRank(s, i) == 0 then PushRank(Step(s, m), i) == 5 else PushRank(Step(s, m), i) < PushRank(s, i)
      else PushRank(Step(s, m), i) == PushRank(s, i)
  {
    ReachableInv(s, items);
    assert s.notify[i] ==> s.rings[i].prod.ProdReturned?;
    hide Inv, Reachable, Spsc.Shape;
    if m.Produce? && m.i == i {
      OwnRank(s, m.item, i);
    } else {
      MoveLocal(s, m);
      hide Shape, Step, S.PushRank;
      PushRankIs(s, Step(s, m), i);
    }
  }

  lemma OwnRank(s: State, x: u64, i: nat)
    requires Shape(s) && i < |s.rings| && (s.notify[i] ==> s.rings[i].prod.ProdReturned?)
    ensures var s' := ProduceStep(s, i, x);
      if PushRank(s, i) == 0 then PushRank(s', i) == 5 else PushRank(s', i) < PushRank(s, i)
  {
    S.MoveRanks(s.rings[i], Spsc.ProdMove(x));
    hide Spsc.Shape, Shape;
  }

  lemma PushRankIs(s: State, s': State, i: nat)
    requires |s.rings| == |s.notify| == |s'.rings| == |s'.notify| && i < |s.rings|
    requires s'.rings[i].prod == s.rings[i].prod && s'.notify[i] == s.notify[i]
    ensures PushRank(s', i) == PushRank(s, i)
  {
  }

  // ---- what the bitmap says -----------------------------------------------------------

  /** Move k of a schedule from s is producer i's fetch_or. */
  ghost predicate Notifies(s: State, schedule: seq<Move>, k: nat, i: nat)
    requires Shape(s)
  {
    && k < |schedule| && schedule[k].Produce? && schedule[k].i == i
    && i < |s.rings| && Run(s, schedule[..k]).notify[i]
  }

  /** A bit that is set was set before or was set by its producer's fetch_or since. */
  lemma {:induction false} DirtyByNotice(s: State, later: seq<Move>, i: nat)
    requires Shape(s)
    ensures i in Run(s, later).dirty ==> i in s.dirty || exists k: nat :: Notifies(s, later, k, i)
    decreases |later|
  {
    if later != [] && i in Run(s, later).dirty && i !in s.dirty {
      var n := |later| - 1;
      var before := Run(s, later[..n]);
      DirtyByNotice(s, later[..n], i);
      if i in before.dirty {
        var k: nat :| Notifies(s, later[..n], k, i);
        assert later[..n][..k] == later[..k];
        assert Notifies(s, later, k, i);
      } else {
        NewBit(before, later[n], i);
        assert Notifies(s, later, n, i);
      }
    }
  }

  lemma NewBit(s: State, m: Move, i: nat)
    requires Shape(s) && i !in s.dirty && i in Step(s, m).dirty
    ensures m.Produce? && m.i == i && i < |s.rings| && s.notify[i]
  {
    hide Spsc.Shape;
  }

  /** A bit set, or about to be, stands for a push since, or for what stood before. */
  lemma {:induction false} DirtyByPush(s: State, later: seq<Move>, i: nat)
    requires Shape(s) && i < |s.rings|
    ensures var r := Run(s, later);
      && |r.rings[i].pushed| >= |s.rings[i].pushed|
      && (i in r.dirty || r.notify[i] ==>
            i in s.dirty || s.notify[i] || |r.rings[i].pushed| > |s.rings[i].pushed|)
    decreases |later|
  {
    if later != [] {
      var n := |later| - 1;
      DirtyByPush(s, later[..n], i);
      hide Spsc.Shape;
      MoveLocal(Run(s, later[..n]), later[n]);
    }
  }

  /**
   * The exchange leaves no bit set: afterwards a bit is set only by a fetch_or made since, of
   * a push whose item was stored since or was already stored and not yet announced.
   */
  lemma ExchangeTakesAll(start: State, items: nat, later: seq<Move>, i: nat)
    requires Reachable(start, items) && start.cons.Exchange?
    ensures ConsumeStep(start).dirty == {}
    ensures var s := Run(ConsumeStep(start), later);
      i in s.dirty ==>
        && (exists k: nat :: Notifies(ConsumeStep(start), later, k, i))
        && i < |s.rings| && (start.notify[i] || |s.rings[i].pushed| > |start.rings[i].pushed|)
  {
    var s' := ConsumeStep(start);
    hide Run;
    DirtyByNotice(s', later, i);
    if i in Run(s', later).dirty {
      DirtyByPush(s', later, i);
    }
  }

  /** If no producer announces a push between the exchange and the load in release, release answers 0. */
  lemma ReleaseAnswersZero(start: State, items: nat, later: seq<Move>)
    requires Reachable(start, items) && start.cons.Exchange?
    requires var s := ConsumeStep(start);
      Run(s, later).cons.ReleaseLoad? && forall k: nat, i: nat :: !Notifies(s, later, k, i)
    ensures ConsumeStep(Run(ConsumeStep(start), later)).cons == Released(false)
  {
    var s := Run(ConsumeStep(start), later);
    hide Run, Notifies;
    forall i: nat ensures i !in s.dirty {
      ExchangeTakesAll(start, items, later, i);
    }
    assert s.dirty == {};
  }

  /**
   * What the consumer's calls answer. Between a release and the next inspect its own ring is
   * empty, so that inspect always goes to the bitmap; a range read to its end leads to the
   * load of the bitmap, and release answers by what it finds there.
   */
  lemma ConsumerAnswers(s: State, items: nat)
    requires Reachable(s, items)
    ensures s.cons.Outside? || s.cons.InspectedNone? || s.cons.Released? ==>
      ConsumeStep(s).cons == Exchange && |s.moved| == s.released
    ensures s.cons.Holding? && s.cons.idx == s.cons.end ==>
      ConsumeStep(s).cons == ReleaseLoad && ConsumeStep(s).released == |s.moved| == |s.delivered|
    ensures ConsumeStep(s).cons.Released? ==>
      ConsumeStep(s).cons.more == (s.dirty != {}) && |s.delivered| == |s.moved| == s.released
    ensures ConsumeStep(s).cons.InspectedNone? ==> |s.delivered| == |s.moved| == s.released
    ensures ConsumeStep(s).cons.Holding? && !s.cons.Holding? ==>
      && ConsumeStep(s).cons == Holding(s.reader, s.reader, s.writer)
      && |s.delivered| == s.released < |s.moved|
  {
    ReachableInv(s, items);
    OwnIndices(s);
    hide Inv, Reachable, Spsc.ConsStep, Spsc.Shape;
  }

  /** What the consumer finds when it compares the indices of its own ring. */
  lemma OwnIndices(s: State)
    requires Inv(s)
    ensures s.reader == s.writer <==> |s.moved| == s.released
    ensures s.released <= |s.delivered| <= |s.moved|
    ensures match s.cons {
        case Holding(begin, idx, end) =>
          end == s.writer && begin == s.reader && (idx == end <==> |s.delivered| == |s.moved|)
        case Adding(_, _) => s.released == |s.delivered|
        case Drain(_) => s.released == |s.delivered|
        case Popping(_) => s.released == |s.delivered|
        case Overflow(_, _) => true
        case _ => s.released == |s.delivered| == |s.moved|
      }
  {
    hide RingsInv, FlowInv, NoLostNotification;
    Spsc.EmptyTest(|s.moved|, s.released, |s.slots|);
    Spsc.EmptyTest(|s.moved|, |s.delivered|, |s.slots|);
    hide Idx;
  }

  // ---- a turn of the consumer that runs alone -----------------------------------------

  /** A turn is over: inspect found nothing, or release returned; or the assertion fired. */
  predicate TurnOver(pc: ConsPc) {
    pc.InspectedNone? || pc.Released? || pc.Overflow?
  }

  predicate Draining(s: State) {
    s.cons.Drain? || s.cons.Popping? || s.cons.Adding?
  }

  /** How far the consumer is from the end of its turn: stage, rings, items, moves. */
  function Stage(s: State): nat {
    match s.cons
    case Outside => 6
    case Exchange => 5
    case Holding(_, _, _) => 3
    case ReleaseLoad => 2
    case _ => if Draining(s) then 4 else 0
  }

  function RingsLeft(s: State): nat {
    if Draining(s) && s.cons.i < |s.rings| then |s.rings| - s.cons.i else 0
  }

  function ItemsLeft(s: State): nat {
    if s.cons.Holding? then if |s.delivered| <= |s.moved| then |s.moved| - |s.delivered| else 0
    else if Draining(s) && s.cons.i < |s.rings| then |Waiting(s.rings[s.cons.i])|
    else 0
  }

  function MovesLeft(s: State): nat {
    match s.cons
    case Adding(_, items) => BATCH + 20 + |items|
    case Drain(i) => BATCH + 10
    case Popping(i) => if i < |s.rings| then S.PopRank(s.rings[i]) else 0
    case _ => 0
  }

  /** Each move of the consumer brings the end of its turn nearer. */
  ghost predicate Nearer(s: State, s': State) {
    || Stage(s') < Stage(s)
    || (Stage(s') == Stage(s) && RingsLeft(s') < RingsLeft(s))
    || (Stage(s') == Stage(s) && RingsLeft(s') == RingsLeft(s) && ItemsLeft(s') < ItemsLeft(s))
    || (Stage(s') == Stage(s) && RingsLeft(s') == RingsLeft(s) && ItemsLeft(s') == ItemsLeft(s)
        && MovesLeft(s') < MovesLeft(s))
  }

  lemma ConsumeNearer(s: State)
    requires Inv(s) && !TurnOver(s.cons)
    ensures TurnOver(ConsumeStep(s).cons) || Nearer(s, ConsumeStep(s))
  {
    if s.cons.Popping? || (s.cons.Drain? && s.cons.i < |s.rings|) {
      PopNearer(s, s.cons.i);
    } else {
      OwnIndices(s);
      ConsumeKeeps(s);
      OwnIndices(ConsumeStep(s));
      hide RingsInv, OwnInv, FlowInv, NoLostNotification, Spsc.Shape, Waiting, PopStep;
    }
  }

  lemma PopNearer(s: State, i: nat)
    requires Inv(s) && i < |s.rings| && (s.cons == Drain(i) || s.cons == Popping(i))
    ensures ConsumeStep(s) == PopStep(s, i) && Nearer(s, PopStep(s, i))
  {
    var ring := s.rings[i];
    assert Spsc.Inv(ring) && (if s.cons.Popping? then BatchPop(ring.cons) else ring.cons.ConsReturned?);
    PopShape(s, i);
    hide Inv, Spsc.Inv, Shape, Spsc.ConsStep, Waiting, S.PopRank, PopStep, ConsumeStep;
    RingNearer(ring);
  }

  /** What one access of a batch leaves of the queue, as far as its progress goes. */
  lemma PopShape(s: State, i: nat)
    requires Shape(s) && i < |s.rings| && (s.cons == Drain(i) || s.cons == Popping(i))
    ensures var s', ring' := PopStep(s, i), Spsc.ConsStep(s.rings[i], BATCH);
      && ConsumeStep(s) == s' && |s'.rings| == |s.rings| && s'.rings[i] == ring'
      && s'.cons == if !ring'.cons.ConsReturned? then Popping(i)
                    else if ring'.cons.got == [] then Drain(i + 1)
                    else Adding(i, ring'.cons.got)
  {
    hide Spsc.ConsStep, Spsc.Shape;
  }

  /** One move of a batch brings its end nearer, or ends it with fewer items waiting or with none returned. */
  lemma RingNearer(ring: Spsc.State)
    requires Spsc.Inv(ring) && (ring.cons.ConsReturned? || BatchPop(ring.cons))
    ensures var ring' := Spsc.ConsStep(ring, BATCH);
      if ring'.cons.ConsReturned? then ring'.cons.got == [] || |Waiting(ring')| < |Waiting(ring)|
      else
        && |Waiting(ring')| == |Waiting(ring)|
        && S.PopRank(ring') < if ring.cons.ConsReturned? then BATCH + 10 else S.PopRank(ring)
  {
    BatchEffect(ring);
    S.MoveRanks(ring, Spsc.ConsMove(BATCH));
    RingSplit(ring);
    RingSplit(Spsc.ConsStep(ring, BATCH));
    hide Spsc.Inv, Spsc.Shape, Spsc.ConsStep, Waiting, S.PopRank;
  }

  function Consumes(n: nat): seq<Move> {
    seq(n, _ => Consume)
  }

  lemma RunCons(s: State, n: nat)
    requires Shape(s) && n > 0
    ensures Run(s, Consumes(n)) == Run(ConsumeStep(s), Consumes(n - 1))
    decreases n
  {
    hide ConsumeStep, Shape;
    assert Consumes(n)[..n - 1] == Consumes(n - 1);
    if n == 1 {
      assert Consumes(0) == [];
    } else {
      RunCons(s, n - 1);
      assert Consumes(n - 1)[..n - 2] == Consumes(n - 2);
    }
  }

  /**
   * A turn of the consumer that runs alone from anywhere ends: the drain loops terminate, the
   * range is read to its end, and release returns.
   */
  lemma {:induction false} TurnFinishes(s: State) returns (n: nat)
    requires Inv(s)
    ensures TurnOver(Run(s, Consumes(n)).cons)
    decreases Stage(s), RingsLeft(s), ItemsLeft(s), MovesLeft(s)
  {
    if TurnOver(s.cons) {
      n := 0;
    } else {
      assert Shape(s);
      ConsumeNearer(s);
      ConsumeKeeps(s);
      hide Inv, Run, ConsumeStep, TurnOver, Stage, RingsLeft, ItemsLeft, MovesLeft, Shape;
      if TurnOver(ConsumeStep(s).cons) {
        n := 1;
        RunCons(s, 1);
        RunNothing(ConsumeStep(s));
      } else {
        n := TurnFinishes(ConsumeStep(s));
        n := n + 1;
        RunCons(s, n);
      }
    }
  }

  lemma RunNothing(s: State)
    requires Shape(s)
    ensures Run(s, Consumes(0)) == s
  {
  }
}
