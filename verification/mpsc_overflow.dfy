// The assertion on a full consumer ring can fire in every configuration: a schedule in
// which producer 0 pushes one item for each item that the drain loop moves.
module MpscOverflow {
  import opened Tickets
  import Spsc = SpscProtocol
  import opened MpscProtocol
  import opened MpscTheorems

  /** One more move of a schedule. */
  lemma Extend(s: State, items: nat, m: Move)
    requires Reachable(s, items)
    ensures Reachable(Step(s, m), items) && Inv(Step(s, m)) && Sized(Step(s, m), items)
  {
    var schedule: seq<Move> :| s == Run(Init(|s.rings|, items), schedule);
    var longer := schedule + [m];
    assert longer[..|longer| - 1] == schedule;
    assert Step(s, m) == Run(Init(|s.rings|, items), longer);
    ReachableInv(Step(s, m), items);
  }

  /** The consumer and what it has taken from ring i stand still. */
  ghost predicate ConsumerStill(s: State, s': State, i: nat) {
    && |s'.rings| == |s.rings| && i < |s.rings|
    && s'.cons == s.cons && s'.moved == s.moved && s'.released == s.released
    && s'.rings[i].popped == s.rings[i].popped
  }

  /** One access of a push that is not a notification. */
  lemma PushAccess(s: State, items: nat, i: nat, x: u64) returns (s': State)
    requires Reachable(s, items) && i < |s.rings| && !s.notify[i]
    ensures Reachable(s', items) && ConsumerStill(s, s', i)
    ensures s'.rings[i] == Spsc.ProdStep(s.rings[i], x) && s'.notify[i] == s.rings[i].prod.ProdStore?
    ensures Spsc.Inv(s'.rings[i]) && s'.rings[i].cap == items + 1
    ensures s'.rings[i].pushed ==
            s.rings[i].pushed + if s.rings[i].prod.ProdStore? then [s.rings[i].prod.item] else []
  {
    ReachableInv(s, items);
    PushEffect(s.rings[i], x);
    Extend(s, items, Produce(i, x));
    hide Reachable, Inv, Spsc.Inv;
    s' := Step(s, Produce(i, x));
  }

  /** A push to a ring with room, from its call to its return, nothing else moving. */
  lemma PushOne(s: State, items: nat, i: nat, x: u64) returns (s': State)
    requires Reachable(s, items) && i < |s.rings| && !s.notify[i]
    requires s.rings[i].prod.ProdReturned? && |s.rings[i].pushed| - |s.rings[i].popped| < items
    ensures Reachable(s', items) && ConsumerStill(s, s', i)
    ensures !s'.notify[i] && i in s'.dirty && s'.rings[i].prod.ProdReturned?
    ensures s'.rings[i].pushed == s.rings[i].pushed + [x]
  {
    hide Reachable, Spsc.Inv, Step;
    s' := PushAccess(s, items, i, x);
    s' := PushAccess(s', items, i, x);
    if s'.rings[i].prod.ProdRefresh? {
      RoomAfterRefresh(s'.rings[i], x, items);
      s' := PushAccess(s', items, i, x);
    }
    s' := PushAccess(s', items, i, x);
    s' := PushAccess(s', items, i, x);
    s' := Announce(s', items, i, x);
  }

  lemma RoomAfterRefresh(ring: Spsc.State, x: u64, items: nat)
    requires Spsc.Inv(ring) && ring.prod.ProdRefresh? && ring.cap == items + 1
    requires |ring.pushed| - |ring.popped| < items
    ensures Spsc.ProdStep(ring, x).prod.ProdWrite?
  {
    Spsc.FullTest(|ring.pushed|, |ring.popped|, ring.cap);
  }

  lemma Announce(s: State, items: nat, i: nat, x: u64) returns (s': State)
    requires Reachable(s, items) && i < |s.rings| && s.notify[i]
    ensures Reachable(s', items) && ConsumerStill(s, s', i) && s'.rings == s.rings
    ensures !s'.notify[i] && i in s'.dirty
  {
    Extend(s, items, Produce(i, x));
    s' := Step(s, Produce(i, x));
  }

  /** One access of the drain loop's batched pop. */
  lemma PopAccess(s: State, items: nat, i: nat) returns (s': State)
    requires Reachable(s, items) && i < |s.rings| && (s.cons == Drain(i) || s.cons == Popping(i))
    ensures Reachable(s', items) && |s'.rings| == |s.rings|
    ensures s'.rings[i] == Spsc.ConsStep(s.rings[i], BATCH) && s'.moved == s.moved && s'.released == s.released
    ensures s'.notify == s.notify
    ensures s'.cons == if !s'.rings[i].cons.ConsReturned? then Popping(i)
                       else if s'.rings[i].cons.got == [] then Drain(i + 1)
                       else Adding(i, s'.rings[i].cons.got)
    ensures Spsc.Inv(s'.rings[i])
    ensures s.cons.Drain? ==> s.rings[i].cons.ConsReturned?
  {
    ReachableInv(s, items);
    Extend(s, items, Consume);
    hide Reachable, Spsc.Inv, Spsc.ConsStep;
    s' := Step(s, Consume);
  }

  /** Ring i, as a batched pop finds it when one item is waiting. */
  ghost predicate OneWaiting(ring: Spsc.State) {
    Spsc.Inv(ring) && |ring.pushed| == |ring.popped| + 1
  }

  /** The batch's accesses up to the first slot copied. */
  lemma GrabFirst(ring: Spsc.State)
    requires OneWaiting(ring)
    ensures ring.cons == Spsc.ConsTest(BATCH) ==>
      var r := Spsc.ConsStep(ring, BATCH);
      r.cons.ConsRefresh? || (r.cons.ConsRead? && r.cons.got == [])
    ensures ring.cons.ConsRefresh? ==>
      var r := Spsc.ConsStep(ring, BATCH);
      r.cons == Spsc.ConsRead(ring.cons.count, ring.readIdx, [])
    ensures ring.cons.ConsRead? && ring.cons.got == [] && ring.cons.count == BATCH ==>
      var r := Spsc.ConsStep(ring, BATCH);
      r.cons.ConsRead? && |r.cons.got| == 1 && r.cons.count == BATCH
    ensures ring.cons.ConsRead? && |ring.cons.got| == 1 ==>
      var r := Spsc.ConsStep(ring, BATCH);
      r.cons.ConsStore? && r.cons.got == ring.cons.got
  {
    Spsc.EmptyTest(|ring.pushed|, |ring.popped|, ring.cap);
    Spsc.EmptyTest(ring.seenWrite, |ring.popped|, ring.cap);
    if ring.cons.ConsRead? {
      Spsc.EmptyTest(ring.seenWrite, |ring.popped| + |ring.cons.got|, ring.cap);
    }
  }

  /** A whole batch on a ring with one item waiting: that item is then in hand. */
  lemma GrabOne(s: State, items: nat, i: nat) returns (s': State)
    requires Reachable(s, items) && i < |s.rings| && s.cons == Drain(i) && OneWaiting(s.rings[i])
    ensures Reachable(s', items) && |s'.rings| == |s.rings| && s'.moved == s.moved && s'.released == s.released
    ensures s'.cons.Adding? && s'.cons.i == i && |s'.cons.items| == 1
    ensures s'.rings[i].prod == s.rings[i].prod && s'.rings[i].popped == s'.rings[i].pushed
    ensures s'.notify == s.notify
  {
    hide Reachable, Spsc.Inv;
    s' := PopAccess(s, items, i);
    GrabFirst(s'.rings[i]);
    s' := PopAccess(s', items, i);
    GrabFirst(s'.rings[i]);
    if s'.rings[i].cons.ConsRefresh? {
      s' := PopAccess(s', items, i);
      GrabFirst(s'.rings[i]);
    }
    s' := PopAccess(s', items, i);
    GrabFirst(s'.rings[i]);
    s' := PopAccess(s', items, i);
    s' := PopAccess(s', items, i);
    StoredAll(s'.rings[i]);
  }

  lemma StoredAll(ring: Spsc.State)
    requires Spsc.Inv(ring) && |ring.popped| == |ring.pushed|
    ensures ring.popped == ring.pushed
  {
  }

  /** Adding the one item in hand to a ring with room, back to the head of the drain loop. */
  lemma AddOne(s: State, items: nat) returns (s': State)
    requires Reachable(s, items) && s.cons.Adding? && |s.cons.items| == 1
    requires |s.moved| - s.released < |s.rings| * items
    ensures Reachable(s', items) && s'.cons == Drain(s.cons.i) && s'.rings == s.rings
    ensures |s'.moved| == |s.moved| + 1 && s'.released == s.released && s'.notify == s.notify
  {
    OverflowIff(s, items);
    Extend(s, items, Consume);
    var t := Step(s, Consume);
    Extend(t, items, Consume);
    s' := Step(t, Consume);
  }

  /** From creation to the head of the drain loop with one item waiting. */
  lemma FirstItem(producers: nat, items: nat) returns (s: State)
    requires 1 <= producers <= MAX_PRODUCERS && items >= 1
    ensures Reachable(s, items) && |s.rings| == producers
    ensures s.cons == Drain(0) && s.moved == [] && s.released == 0 && !s.notify[0]
    ensures s.rings[0].prod.ProdReturned? && |s.rings[0].pushed| == |s.rings[0].popped| + 1
  {
    s := Init(producers, items);
    assert s == Run(s, []);
    hide Run;
    s := PushOne(s, items, 0, 7);
    Extend(s, items, Consume);
    s := Step(s, Consume);
    Extend(s, items, Consume);
    s := Step(s, Consume);
  }

  /** In every configuration some schedule fires the assertion. */
  lemma OverflowHappens(producers: nat, items: nat) returns (s: State)
    requires 1 <= producers <= MAX_PRODUCERS && items >= 1
    ensures Reachable(s, items) && |s.rings| == producers && s.cons.Overflow?
  {
    s := FirstItem(producers, items);
    hide Reachable, Spsc.Inv;
    while |s.moved| < producers * items
      invariant Reachable(s, items) && |s.rings| == producers
      invariant s.cons == Drain(0) && s.released == 0 && |s.moved| <= producers * items
      invariant !s.notify[0] && s.rings[0].prod.ProdReturned?
      invariant |s.rings[0].pushed| == |s.rings[0].popped| + 1
      decreases producers * items - |s.moved|
    {
      ReachableInv(s, items);
      s := GrabOne(s, items, 0);
      s := AddOne(s, items);
      s := PushOne(s, items, 0, 7);
    }
    ReachableInv(s, items);
    s := GrabOne(s, items, 0);
    OverflowIff(s, items);
    Extend(s, items, Consume);
    s := Step(s, Consume);
  }
}
