// What the multi-producer single-consumer queue promises, for every schedule.
module MpscTheorems {
  import opened Tickets
  import Spsc = SpscProtocol
  import opened MpscProtocol

  /** The queue as created for `items` items per producer, after any schedule. */
  ghost predicate Reachable(s: State, items: nat) {
    && Shape(s)
    && items >= 1
    && exists schedule: seq<Move> :: s == Run(Init(|s.rings|, items), schedule)
  }

  /** The sizes fixed by creation: the consumer ring has room for all producers' items. */
  ghost predicate Sized(s: State, items: nat) {
    && |s.slots| == |s.rings| * items + 1
    && (forall i | 0 <= i < |s.rings| :: s.rings[i].cap == items + 1)
  }

  lemma ReachableInv(s: State, items: nat)
    requires Reachable(s, items)
    ensures Inv(s) && Sized(s, items)
  {
    var schedule: seq<Move> :| s == Run(Init(|s.rings|, items), schedule);
    var s0 := Init(|s.rings|, items);
    InitInv(|s.rings|, items);
    assert Sized(s0, items);
    hide Init, Run, RingsInv, OwnInv, ConsOk, FlowInv, NoLostNotification, Sized, Shape;
    RunInv(s0, schedule);
    RunFrame(s0, schedule, items);
  }

  lemma {:induction false} RunFrame(s: State, schedule: seq<Move>, items: nat)
    requires Inv(s) && Sized(s, items)
    ensures Sized(Run(s, schedule), items)
    ensures s.released <= Run(s, schedule).released
    decreases |schedule|
  {
    if schedule != [] {
      var n := |schedule| - 1;
      RunFrame(s, schedule[..n], items);
      RunInv(s, schedule[..n]);
      hide Run, RingsInv, FlowInv, NoLostNotification, ConsOk, Spsc.ProdStep, Spsc.ConsStep;
      StepFrame(Run(s, schedule[..n]), schedule[n], items);
    }
  }

  lemma StepFrame(s: State, m: Move, items: nat)
    requires Shape(s) && OwnInv(s) && Sized(s, items)
    ensures Sized(Step(s, m), items) && s.released <= Step(s, m).released
  {
    hide Idx, Spsc.ProdStep, Spsc.ConsStep, Spsc.Shape;
  }

  // ---- order and conservation ---------------------------------------------------------

  /**
   * Every item a producer has pushed is, in order, delivered, in the consumer ring, in the
   * drain loop's hand, or in the producer's own ring.
   */
  lemma EndToEnd(s: State, items: nat, i: nat)
    requires Reachable(s, items) && i < |s.rings|
    ensures s.released <= |s.delivered| <= |s.moved|
    ensures forall k: nat :: k < |s.delivered| ==> s.delivered[k] == s.moved[k].item
    ensures forall k: nat :: s.released <= k < |s.moved| ==> s.slots[Idx(k, |s.slots|)] == s.moved[k].item
    ensures OfProducer(s.moved[..|s.delivered|], i) + OfProducer(s.moved[|s.delivered|..], i)
            + InHand(s, i) + Waiting(s.rings[i]) == s.rings[i].pushed
  {
    hide *;
    ReachableInv(s, items);
    OwnRing(s);
    Flow(s, i);
    FlowSplit(s.moved, |s.delivered|, i, InHand(s, i), Waiting(s.rings[i]));
  }

  lemma FlowSplit(moved: seq<Tagged>, d: nat, i: nat, hand: seq<u64>, waiting: seq<u64>)
    requires d <= |moved|
    ensures OfProducer(moved, i) + hand + waiting
         == OfProducer(moved[..d], i) + OfProducer(moved[d..], i) + hand + waiting
  {
    hide *;
    assert moved == moved[..d] + moved[d..];
    OfProducerSplit(moved[..d], moved[d..], i);
  }

  lemma OwnRing(s: State)
    requires Inv(s)
    ensures s.released <= |s.delivered| <= |s.moved|
    ensures forall k: nat :: k < |s.delivered| ==> s.delivered[k] == s.moved[k].item
    ensures forall k: nat :: s.released <= k < |s.moved| ==> s.slots[Idx(k, |s.slots|)] == s.moved[k].item
  {
  }

  lemma Flow(s: State, i: nat)
    requires Inv(s) && i < |s.rings|
    ensures OfProducer(s.moved, i) + InHand(s, i) + Waiting(s.rings[i]) == s.rings[i].pushed
    ensures |Waiting(s.rings[i])| <= s.rings[i].cap - 1
  {
    assert Spsc.Inv(s.rings[i]);
    assert OfProducer(s.moved, i) + InHand(s, i) == s.rings[i].popped;
    hide *;
    RingSplit(s.rings[i]);
  }

  lemma RingSplit(ring: Spsc.State)
    requires Spsc.Inv(ring)
    ensures ring.popped + Waiting(ring) == ring.pushed
    ensures |Waiting(ring)| == |ring.pushed| - |ring.popped| <= ring.cap - 1
  {
    assert ring.pushed == ring.pushed[..|ring.popped|] + ring.pushed[|ring.popped|..];
  }

  /** While a range is held, inspecting again returns the same range. */
  lemma InspectAgain(s: State, items: nat)
    requires Reachable(s, items) && s.cons.Holding?
    ensures InspectOwn(s) == Holding(s.cons.begin, s.cons.begin, s.cons.end)
    ensures s.cons.idx != s.cons.end ==> |s.delivered| < |s.moved|
    ensures s.cons.idx == s.cons.end ==> |s.delivered| == |s.moved|
  {
    ReachableInv(s, items);
    Spsc.EmptyTest(|s.moved|, |s.delivered|, |s.slots|);
  }

  // ---- notification -------------------------------------------------------------------

  /** An item waiting in a producer's ring is announced, about to be, or about to be found. */
  lemma NothingForgotten(s: State, items: nat, i: nat)
    requires Reachable(s, items) && i < |s.rings| && Waiting(s.rings[i]) != []
    ensures i in s.dirty || s.notify[i] || DrainCovers(s.cons, i)
  {
    ReachableInv(s, items);
  }

  /**
   * `release` returns 0, or `inspect` finds the bitmap empty, exactly when no bit is set;
   * then a producer that is not between its enqueue and its fetch_or has nothing pending:
   * all it ever pushed has been delivered.
   */
  lemma NothingPending(s: State, items: nat)
    requires Reachable(s, items) && (s.cons.ReleaseLoad? || s.cons.Exchange?)
    ensures (ConsumeStep(s).cons == Released(false) || ConsumeStep(s).cons == InspectedNone) <==> s.dirty == {}
    ensures |s.delivered| == |s.moved|
    ensures s.dirty == {} ==> forall i | 0 <= i < |s.rings| && !s.notify[i] ::
              OfProducer(s.moved[..|s.delivered|], i) == s.rings[i].pushed
  {
    ReachableInv(s, items);
    assert s.moved[..|s.delivered|] == s.moved;
    if s.dirty == {} {
      forall i | 0 <= i < |s.rings| && !s.notify[i]
        ensures OfProducer(s.moved[..|s.delivered|], i) == s.rings[i].pushed
      {
        RingSplit(s.rings[i]);
        assert OfProducer(s.moved, i) + InHand(s, i) == s.rings[i].popped;
        assert Waiting(s.rings[i]) == [];
      }
    }
  }

  // ---- the consumer ring and its overflow ---------------------------------------------

  /** The pushes of producers 0 .. n - 1. */
  function PushedBy(s: State, n: nat): nat
    requires n <= |s.rings|
  {
    if n == 0 then 0 else PushedBy(s, n - 1) + |s.rings[n - 1].pushed|
  }

  function TotalPushed(s: State): nat {
    PushedBy(s, |s.rings|)
  }

  /** The items of producers 0 .. n - 1 among those moved. */
  function MovedOf(moved: seq<Tagged>, n: nat): nat {
    if n == 0 then 0 else MovedOf(moved, n - 1) + |OfProducer(moved, n - 1)|
  }

  lemma {:induction false} MovedOfSnoc(moved: seq<Tagged>, x: Tagged, n: nat)
    ensures MovedOf(moved + [x], n) == MovedOf(moved, n) + if x.producer < n then 1 else 0
  {
    if n > 0 {
      MovedOfSnoc(moved, x, n - 1);
      OfProducerSnoc(moved, x, n - 1);
    }
  }

  lemma {:induction false} MovedTotal(moved: seq<Tagged>, n: nat)
    requires forall k: nat :: k < |moved| ==> moved[k].producer < n
    ensures MovedOf(moved, n) == |moved|
  {
    if moved == [] {
      MovedNone(n);
    } else {
      var m := |moved| - 1;
      MovedTotal(moved[..m], n);
      MovedOfSnoc(moved[..m], moved[m], n);
      assert moved == moved[..m] + [moved[m]];
    }
  }

  lemma {:induction false} MovedNone(n: nat)
    ensures MovedOf([], n) == 0
  {
    if n > 0 {
      MovedNone(n - 1);
    }
  }

  /** The items in the drain loop's hand. */
  function HandSize(s: State, n: nat): nat {
    if (s.cons.Adding? || s.cons.Overflow?) && s.cons.i < n then |s.cons.items| else 0
  }

  /** What one producer pushed is moved, in hand or waiting, and its ring waits with no more than it holds. */
  lemma RingBounds(s: State, items: nat, i: nat)
    requires Inv(s) && Sized(s, items) && i < |s.rings|
    ensures |OfProducer(s.moved, i)| + |InHand(s, i)| <= |s.rings[i].pushed|
            <= |OfProducer(s.moved, i)| + |InHand(s, i)| + items
    ensures HandSize(s, i + 1) == HandSize(s, i) + |InHand(s, i)|
  {
    hide Inv, OfProducer, Waiting;
    Flow(s, i);
  }

  lemma {:induction false} PushedBounds(s: State, items: nat, n: nat)
    requires Inv(s) && Sized(s, items) && n <= |s.rings|
    ensures MovedOf(s.moved, n) + HandSize(s, n) <= PushedBy(s, n)
            <= MovedOf(s.moved, n) + HandSize(s, n) + n * items
    decreases n
  {
    hide Inv, Sized, OfProducer, InHand;
    if n > 0 {
      PushedBounds(s, items, n - 1);
      RingBounds(s, items, n - 1);
      OneMore(n, items);
    }
  }

  lemma OneMore(n: nat, items: nat)
    requires n > 0
    ensures n * items == (n - 1) * items + items
  {
  }

  /** Adding to the consumer ring fails exactly when it holds one item per producer slot. */
  lemma OverflowIff(s: State, items: nat)
    requires Reachable(s, items) && s.cons.Adding? && s.cons.items != []
    ensures ConsumeStep(s).cons.Overflow? <==> |s.moved| - s.released == |s.rings| * items
  {
    hide Inv, Reachable, ConsumeStep;
    ReachableInv(s, items);
    AddFails(s);
  }

  lemma AddFails(s: State)
    requires Inv(s) && s.cons.Adding? && s.cons.items != []
    ensures ConsumeStep(s).cons.Overflow? <==> |s.moved| - s.released == |s.slots| - 1
  {
    hide ConsOk, FlowInv, NoLostNotification, Spsc.Inv, Spsc.Shape;
    Spsc.FullTest(|s.moved|, s.released, |s.slots|);
    Spsc.NextOk(|s.moved|, |s.slots|);
  }

  /**
   * From the moment `inspect` finds its own ring empty, the assertion on a full ring can
   * fire only if more items are stored by producers than are released by the consumer, and
   * only with more items outstanding than the producers' rings hold together.
   */
  lemma OverflowNeedsPushes(start: State, items: nat, later: seq<Move>)
    requires Reachable(start, items) && start.cons.Exchange?
    requires Run(start, later).cons.Overflow?
    ensures var s := Run(start, later);
            && TotalPushed(s) - TotalPushed(start) > s.released - start.released >= 0
            && TotalPushed(s) - s.released > |s.rings| * items
  {
    var s := Run(start, later);
    ReachableInv(start, items);
    RunInv(start, later);
    RunFrame(start, later, items);
    hide Inv, Run;
    PushedTotal(start, items);
    PushedTotal(s, items);
    WhenFull(s);
    WhenEmpty(start);
  }

  /** Back pressure: with no more items outstanding than the rings hold together it never fires. */
  lemma BackPressure(s: State, items: nat)
    requires Reachable(s, items) && TotalPushed(s) - s.released <= |s.rings| * items
    ensures !s.cons.Overflow?
  {
    hide Inv, Reachable;
    ReachableInv(s, items);
    if s.cons.Overflow? {
      PushedTotal(s, items);
      WhenFull(s);
    }
  }

  lemma PushedTotal(s: State, items: nat)
    requires Inv(s) && Sized(s, items)
    ensures var n := |s.rings|;
            |s.moved| + HandSize(s, n) <= TotalPushed(s) <= |s.moved| + HandSize(s, n) + n * items
  {
    hide MovedOf, PushedBy;
    MovedTotal(s.moved, |s.rings|);
    hide Inv, Sized;
    PushedBounds(s, items, |s.rings|);
  }

  lemma WhenFull(s: State)
    requires Inv(s) && s.cons.Overflow?
    ensures |s.moved| == s.released + |s.slots| - 1 && HandSize(s, |s.rings|) >= 1
  {
  }

  lemma WhenEmpty(s: State)
    requires Inv(s) && s.cons.Exchange?
    ensures |s.moved| == s.released && HandSize(s, |s.rings|) == 0
  {
  }

  /** A drain with no push interleaved always fits. */
  lemma DrainAloneFits(start: State, items: nat, later: seq<Move>)
    requires Reachable(start, items) && start.cons.Exchange?
    requires forall m | m in later :: m.Consume?
    ensures !Run(start, later).cons.Overflow?
  {
    ReachableInv(start, items);
    ConsumeOnly(start, later);
    if Run(start, later).cons.Overflow? {
      OverflowNeedsPushes(start, items, later);
    }
  }

  lemma {:induction false} ConsumeOnly(s: State, schedule: seq<Move>)
    requires Shape(s) && forall m | m in schedule :: m.Consume?
    ensures TotalPushed(Run(s, schedule)) == TotalPushed(s)
    decreases |schedule|
  {
    if schedule != [] {
      var n := |schedule| - 1;
      ConsumeOnly(s, schedule[..n]);
      assert schedule[n].Consume?;
      ConsumePushes(Run(s, schedule[..n]), |s.rings|);
    }
  }

  lemma {:induction false} ConsumePushes(s: State, n: nat)
    requires Shape(s) && n <= |s.rings|
    ensures PushedBy(ConsumeStep(s), n) == PushedBy(s, n)
    decreases n
  {
    if n > 0 {
      ConsumePushes(s, n - 1);
    }
  }
}
