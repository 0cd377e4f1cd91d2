// The MPMC and the SPMC queue of c_queue.cpp, one call at a time, with their 32-bit indices
// and turns wrapping around. Slots, headers, construction and try_pop are the same in both;
// they differ in try_push.
module TurnQueue {
  import opened Tickets
  import opened BoundedFifo
  import opened Wrappers

  /** The largest slot count that `mpmc_queue_create` can ask for, from a signed item count. */
  const MAX_SLOTS: nat := 0x8000_0000

  /**
   * The turn that the code computes from a wrapped ticket is the wrapped turn of the ticket,
   * as long as no index has wrapped, or when there are just two slots.
   */
  lemma WrappedTurn(k: nat, cap: nat)
    requires cap >= 2 && (cap == 2 || k < U32_LIMIT)
    ensures Idx(U32(k), cap) == Idx(k, cap)
    ensures U32(Turn(U32(k), cap) * 2) == U32(Turn(k, cap) * 2)
    ensures U32(Turn(U32(k), cap) * 2 + 1) == U32(Turn(k, cap) * 2 + 1)
  {
    if k >= U32_LIMIT {
      TwoSlots(k);
    }
  }

  lemma TwoSlots(k: nat)
    ensures Idx(U32(k), 2) == Idx(k, 2)
    ensures U32(Turn(U32(k), 2) * 2) == U32(Turn(k, 2) * 2)
    ensures U32(Turn(U32(k), 2) * 2 + 1) == U32(Turn(k, 2) * 2 + 1)
  {
    var q, r := k / U32_LIMIT, k % U32_LIMIT;
    assert k == q * U32_LIMIT + r;
    assert k / 2 == q * (U32_LIMIT / 2) + r / 2;
  }

  /** Turns for free and for filled slots differ in parity, which wrapping keeps. */
  lemma Parity(a: nat, b: nat)
    ensures U32(a * 2) != U32(b * 2 + 1)
    ensures U32(U32(a * 2) + 1) == U32(a * 2 + 1)
    ensures U32(U32(a * 2 + 1) + 1) == U32(a * 2 + 2)
  {
  }

  lemma NextWrapped(k: nat)
    ensures U32(U32(k) + 1) == U32(k + 1)
  {
  }

  /**
   * After 2^32 pushes the producer index is back at slot 0 and round 0. The first ticket
   * from there on that uses slot 0 finds the turn 0 it expects exactly if there are two slots.
   */
  lemma WrapAround(k: nat, cap: nat)
    requires 2 <= cap <= MAX_SLOTS
    requires U32_LIMIT <= k < U32_LIMIT + cap && Idx(k, cap) == 0
    ensures U32(Turn(k, cap) * 2) == 0 <==> cap == 2
  {
    var q := k / cap;
    assert k == q * cap;
    if cap > 2 {
      assert q * 3 <= q * cap by { Monotone(3, cap, q); }
      assert q != 0;
    }
  }

  /**
   * The slots of a queue that has accepted `pushed` and returned the first `popped` of it:
   * the turns of the `cap` tickets from `popped` on, which use every slot once, and the
   * items not yet returned.
   */
  ghost predicate SlotsOk(slots: seq<Slot>, cap: nat, pushed: seq<u64>, popped: nat) {
    && 2 <= cap <= MAX_SLOTS && |slots| == cap
    && popped <= |pushed| <= popped + cap
    && (cap == 2 || |pushed| <= U32_LIMIT)
    && (forall k: nat :: popped <= k < |pushed| ==>
          slots[Idx(k, cap)] == Slot(U32(Turn(k, cap) * 2 + 1), pushed[k]))
    && (forall k: nat :: |pushed| <= k < popped + cap ==>
          slots[Idx(k, cap)].turn == U32(Turn(k, cap) * 2))
  }

  /** Slots with turn 0 are those of a queue that nothing was pushed to. */
  lemma FreshSlots(slots: seq<Slot>, cap: nat)
    requires 2 <= cap <= MAX_SLOTS && |slots| == cap
    requires forall i | 0 <= i < cap :: slots[i].turn == 0
    ensures SlotsOk(slots, cap, [], 0)
  {
    forall k: nat | k < cap ensures slots[Idx(k, cap)].turn == U32(Turn(k, cap) * 2) {
      DivMod(k, 0, k, cap);
    }
  }

  /** A push still gets a ticket of its own: there are two slots, or the index has not wrapped. */
  predicate TicketsLeft(cap: nat, pushed: seq<u64>) {
    cap == 2 || |pushed| < U32_LIMIT
  }

  /** The turn check of a push passes exactly when the queue is not full and has tickets left. */
  lemma PushCheckIff(slots: seq<Slot>, cap: nat, pushed: seq<u64>, popped: nat)
    requires SlotsOk(slots, cap, pushed, popped)
    ensures PushCheckPasses(slots, cap, U32(|pushed|)) <==> |pushed| - popped < cap && TicketsLeft(cap, pushed)
  {
    var h := |pushed|;
    if TicketsLeft(cap, pushed) {
      WrappedTurn(h, cap);
      if h == popped + cap {
        NextLap(popped, cap);
        Parity(Turn(h, cap), Turn(popped, cap));
      }
    } else {
      var k := SlotZero(popped, cap);
      assert Idx(0, cap) == 0 && Turn(0, cap) == 0;
      if k < h {
        Parity(0, Turn(k, cap));
      } else {
        WrapAround(k, cap);
      }
    }
  }

  /** Among `cap` consecutive tickets one uses slot 0. */
  lemma SlotZero(from: nat, cap: nat) returns (k: nat)
    requires cap > 0
    ensures from <= k < from + cap && Idx(k, cap) == 0
  {
    var r := from % cap;
    var q := from / cap;
    assert from == q * cap + r;
    if r == 0 {
      k := from;
    } else {
      k := from + cap - r;
      assert k == (q + 1) * cap + 0;
      DivMod(k, q + 1, 0, cap);
    }
  }

  /** The turn check of a pop passes exactly when the queue is not empty. */
  lemma PopCheckIff(slots: seq<Slot>, cap: nat, pushed: seq<u64>, popped: nat)
    requires SlotsOk(slots, cap, pushed, popped)
    ensures PopCheckPasses(slots, cap, U32(popped)) <==> popped < |pushed|
  {
    if cap == 2 || popped < U32_LIMIT {
      WrappedTurn(popped, cap);
      Parity(Turn(popped, cap), Turn(popped, cap));
      hide Idx, Turn, U32;
    } else {
      var k := SlotZero(popped, cap);
      assert U32(popped) == 0 && Idx(0, cap) == 0 && Turn(0, cap) == 0;
      Parity(Turn(k, cap), 0);
      hide Idx, Turn, U32;
    }
  }

  /** Filling the slot of the next ticket. */
  lemma PushKeeps(slots: seq<Slot>, cap: nat, pushed: seq<u64>, popped: nat, item: u64)
    requires SlotsOk(slots, cap, pushed, popped)
    requires |pushed| - popped < cap && TicketsLeft(cap, pushed)
    ensures var head := U32(|pushed|);
            var turn := U32(U32(Turn(head, cap) * 2) + 1);
            && SlotsOk(slots[Idx(head, cap) := Slot(turn, item)], cap, pushed + [item], popped)
            && U32(head + 1) == U32(|pushed| + 1)
  {
    var h := |pushed|;
    assert cap >= 2;
    hide Idx, Turn, U32, SlotsOk;
    WrappedTurn(h, cap);
    Parity(Turn(h, cap), 0);
    NextWrapped(h);
    FillOne(slots, cap, pushed, popped, item);
  }

  lemma FillOne(slots: seq<Slot>, cap: nat, pushed: seq<u64>, popped: nat, item: u64)
    requires SlotsOk(slots, cap, pushed, popped)
    requires |pushed| - popped < cap && TicketsLeft(cap, pushed)
    ensures var i := Idx(|pushed|, cap);
            SlotsOk(slots[i := Slot(U32(Turn(|pushed|, cap) * 2 + 1), item)], cap, pushed + [item], popped)
  {
    hide Idx, Turn, U32;
    var h := |pushed|;
    var slots' := slots[Idx(h, cap) := Slot(U32(Turn(h, cap) * 2 + 1), item)];
    forall k: nat | popped <= k < popped + cap && k != h ensures slots'[Idx(k, cap)] == slots[Idx(k, cap)] {
      OtherSlot(k, h, popped, cap);
    }
  }

  /** Emptying the slot of the oldest ticket. */
  lemma PopKeeps(slots: seq<Slot>, cap: nat, pushed: seq<u64>, popped: nat)
    requires SlotsOk(slots, cap, pushed, popped) && popped < |pushed|
    ensures var tail := U32(popped);
            var turn := U32(U32(Turn(tail, cap) * 2 + 1) + 1);
            && SlotsOk(slots[Idx(tail, cap) := slots[Idx(tail, cap)].(turn := turn)], cap, pushed, popped + 1)
            && slots[Idx(tail, cap)].item == pushed[popped]
            && U32(tail + 1) == U32(popped + 1)
  {
    var t := popped;
    assert cap >= 2 && (cap == 2 || t < U32_LIMIT);
    hide Idx, Turn, U32, SlotsOk;
    WrappedTurn(t, cap);
    Parity(Turn(t, cap), 0);
    NextWrapped(t);
    EmptyOne(slots, cap, pushed, popped);
    assert slots[Idx(t, cap)].item == pushed[t] by { OldestItem(slots, cap, pushed, popped); }
  }

  lemma OldestItem(slots: seq<Slot>, cap: nat, pushed: seq<u64>, popped: nat)
    requires SlotsOk(slots, cap, pushed, popped) && popped < |pushed|
    ensures slots[Idx(popped, cap)].item == pushed[popped]
  {
  }

  lemma EmptyOne(slots: seq<Slot>, cap: nat, pushed: seq<u64>, popped: nat)
    requires SlotsOk(slots, cap, pushed, popped) && popped < |pushed|
    ensures var i := Idx(popped, cap);
            SlotsOk(slots[i := slots[i].(turn := U32(Turn(popped, cap) * 2 + 2))], cap, pushed, popped + 1)
  {
    NextLap(popped, cap);
    hide Idx, Turn, U32;
    var i := Idx(popped, cap);
    var slots' := slots[i := slots[i].(turn := U32(Turn(popped, cap) * 2 + 2))];
    forall k: nat | popped < k < popped + cap ensures slots'[Idx(k, cap)] == slots[Idx(k, cap)] {
      OtherSlot(k, popped, popped, cap);
    }
    assert slots'[Idx(popped + cap, cap)].turn == U32(Turn(popped + cap, cap) * 2) by {
      assert Turn(popped + cap, cap) * 2 == Turn(popped, cap) * 2 + 2;
    }
  }

  lemma OtherSlot(j: nat, k: nat, from: nat, cap: nat)
    requires cap > 0 && from <= j < from + cap && from <= k < from + cap && j != k
    ensures Idx(j, cap) != Idx(k, cap)
  {
    if Idx(j, cap) == Idx(k, cap) {
      SameSlot(j, k, cap);
      SameSlot(k, j, cap);
    }
  }

  /** All that the operations accept gets a ticket of its own. */
  predicate TicketsSuffice(cap: nat, ops: seq<Op>) {
    cap == 2 || |Play(cap, ops).accepted| <= U32_LIMIT
  }

  class Queue {
    const slots: array<Slot>
    const cap: nat    // m_capacity
    var head: nat     // m_producer.m_index
    var tail: nat     // m_consumer.m_index
    ghost var pushed: seq<u64>   // every item accepted so far
    ghost var popped: nat        // how many of them have been returned

    /** Every item accepted and not returned, oldest first. */
    ghost function Model(): BoundedFifo.Queue
      reads this
    {
      BoundedFifo.Queue(cap, if popped <= |pushed| then pushed[popped..] else [])
    }

    ghost predicate Valid()
      reads this, slots
    {
      && SlotsOk(slots[..], cap, pushed, popped)
      && head == U32(|pushed|) && tail == U32(popped)
    }

    lemma PushedBound()
      requires Valid()
      ensures cap == 2 || |pushed| <= U32_LIMIT
      ensures popped <= |pushed| <= popped + cap
    {
    }

    /** The queue that mpmc_queue_create and spmc_queue_create make for an item count; it has one slot more. */
    constructor (itemCount: int)
      requires itemCount < 0x8000_0000
      ensures Valid() && fresh(slots) && pushed == [] && popped == 0
      ensures Model() == BoundedFifo.Queue((if itemCount > 0 then itemCount else 1) + 1, [])
    {
      var requested := if itemCount > 0 then itemCount else 1;
      cap := requested + 1;
      slots := new Slot[requested + 1](i => Slot(0, 0));
      head, tail := 0, 0;
      pushed, popped := [], 0;
      new;
      FreshSlots(slots[..], cap);
    }

    method Store(i: nat, slot: Slot)
      requires i < slots.Length
      modifies slots
      ensures slots[..] == old(slots[..])[i := slot]
    {
      slots[i] := slot;
    }

    /** The item, then the turn of a slot. */
    method Publish(i: nat, item: u64, turn: nat)
      requires i < slots.Length
      modifies slots
      ensures slots[..] == old(slots[..])[i := Slot(turn, item)]
    {
      Store(i, slots[i].(item := item));
      Store(i, slots[i].(turn := turn));
    }

    /**
     * The try_push of the MPMC queue, its weak compare-exchange failing spuriously any number
     * of times. As long as tickets are left it is the push of the abstract queue; after that
     * it always refuses.
     */
    method TryPush(item: u64, spurious: nat) returns (ok: bool)
      requires Valid()
      modifies this, slots
      ensures Valid()
      ensures TicketsLeft(cap, old(pushed)) ==> Pushed(Model(), ok) == BoundedFifo.Push(old(Model()), item)
      ensures !TicketsLeft(cap, old(pushed)) ==> !ok
      ensures !ok ==> slots[..] == old(slots[..]) && head == old(head)
      ensures pushed == (if ok then old(pushed) + [item] else old(pushed))
      ensures popped == old(popped) && tail == old(tail)
    {
      PushCheckIff(slots[..], cap, pushed, popped);
      PushedBound();
      PushOne(cap, pushed, popped, item);
      hide SlotsOk, Turn, Idx, U32, BoundedFifo.Push;
      var failures: nat := spurious;
      var ticket := head;
      while true
        invariant Valid() && head == old(head) && tail == old(tail) && slots[..] == old(slots[..])
        invariant pushed == old(pushed) && popped == old(popped)
        decreases ticket != head, failures
      {
        var i := Idx(ticket, cap);
        var expected := U32(Turn(ticket, cap) * 2);
        if expected == slots[i].turn {
          if head == ticket && failures == 0 {
            PushKeeps(slots[..], cap, pushed, popped, item);
            head := U32(ticket + 1);
            Publish(i, item, U32(expected + 1));
            pushed := pushed + [item];
            return true;
          }
          if failures > 0 {
            failures := failures - 1;
          }
          ticket := head;
        } else {
          var observed := head;
          if observed == ticket {
            return false;
          }
          ticket := observed;
        }
      }
    }

    /** The try_push of the SPMC queue: no loop, and the odd turn is stored before the producer index. */
    method TryPushSingle(item: u64) returns (ok: bool)
      requires Valid()
      modifies this, slots
      ensures Valid()
      ensures TicketsLeft(cap, old(pushed)) ==> Pushed(Model(), ok) == BoundedFifo.Push(old(Model()), item)
      ensures !TicketsLeft(cap, old(pushed)) ==> !ok
      ensures !ok ==> slots[..] == old(slots[..]) && head == old(head)
      ensures pushed == (if ok then old(pushed) + [item] else old(pushed))
      ensures popped == old(popped) && tail == old(tail)
    {
      PushCheckIff(slots[..], cap, pushed, popped);
      PushedBound();
      PushOne(cap, pushed, popped, item);
      hide SlotsOk, Turn, Idx, U32, BoundedFifo.Push;
      var i := Idx(head, cap);
      var expected := U32(Turn(head, cap) * 2);
      if expected != slots[i].turn {
        return false;
      }
      PushKeeps(slots[..], cap, pushed, popped, item);
      Publish(i, item, U32(expected + 1));
      head := U32(head + 1);
      pushed := pushed + [item];
      return true;
    }

    /** try_pop of either queue: the pop of the abstract queue, for ever. */
    method TryPop(spurious: nat) returns (item: Option<u64>)
      requires Valid()
      modifies this, slots
      ensures Valid()
      ensures Popped(Model(), item) == BoundedFifo.Pop(old(Model()))
      ensures pushed == old(pushed) && head == old(head)
      ensures if old(popped) < |pushed| then item == Some(pushed[old(popped)]) && popped == old(popped) + 1
              else item == None && popped == old(popped)
    {
      PopCheckIff(slots[..], cap, pushed, popped);
      hide SlotsOk, Turn, Idx, U32;
      var failures: nat := spurious;
      var ticket := tail;
      while true
        invariant Valid() && head == old(head) && tail == old(tail) && slots[..] == old(slots[..])
        invariant pushed == old(pushed) && popped == old(popped)
        decreases ticket != tail, failures
      {
        var i := Idx(ticket, cap);
        var expected := U32(Turn(ticket, cap) * 2 + 1);
        if expected == slots[i].turn {
          if tail == ticket && failures == 0 {
            PopKeeps(slots[..], cap, pushed, popped);
            tail := U32(ticket + 1);
            item := Some(slots[i].item);
            Store(i, slots[i].(turn := U32(expected + 1)));
            popped := popped + 1;
            return;
          }
          if failures > 0 {
            failures := failures - 1;
          }
          ticket := tail;
        } else {
          var observed := tail;
          if observed == ticket {
            return None;
          }
          ticket := observed;
        }
      }
    }
  }

  /** A push to a queue of either kind. */
  method PushEither(q: Queue, spmc: bool, x: u64) returns (ok: bool)
    requires q.Valid()
    modifies q, q.slots
    ensures q.Valid()
    ensures TicketsLeft(q.cap, old(q.pushed)) ==> Pushed(q.Model(), ok) == BoundedFifo.Push(old(q.Model()), x)
    ensures !TicketsLeft(q.cap, old(q.pushed)) ==> !ok
    ensures q.pushed == (if ok then old(q.pushed) + [x] else old(q.pushed)) && q.popped == old(q.popped)
  {
    hide Queue.Valid, BoundedFifo.Push;
    if spmc {
      ok := q.TryPushSingle(x);
    } else {
      var spurious: nat := *;
      ok := q.TryPush(x, spurious);
    }
  }

  /**
   * Any operations on a new queue of either kind, with any spurious failures: what it accepted
   * is what it returned followed by what it holds, in order, and it does all that the abstract
   * queue does, exactly if the tickets suffice.
   */
  method PlayAll(spmc: bool, itemCount: int, ops: seq<Op>) returns (q: Queue, returned: seq<u64>)
    requires itemCount < 0x8000_0000
    ensures q.Valid() && q.cap == (if itemCount > 0 then itemCount else 1) + 1
    ensures q.pushed == returned + q.Model().items && |q.Model().items| <= q.cap
    ensures Trace(q.Model(), q.pushed, returned) == Play(q.cap, ops) <==> TicketsSuffice(q.cap, ops)
  {
    hide SlotsOk, Play, Queue.Valid;
    q := new Queue(itemCount);
    returned := [];
    PlayNothing(q.cap);
    assert ops[..0] == [];
    for i := 0 to |ops|
      invariant fresh(q) && fresh(q.slots) && q.Valid() && q.cap == (if itemCount > 0 then itemCount else 1) + 1
      invariant q.popped <= |q.pushed| && returned == q.pushed[..q.popped]
      invariant TicketsSuffice(q.cap, ops[..i]) ==> Trace(q.Model(), q.pushed, returned) == Play(q.cap, ops[..i])
    {
      PlaySnoc(q.cap, ops, i);
      q.PushedBound();
      TakeSnoc(q.pushed, q.popped, if ops[i].OpPush? then ops[i].item else 0);
      match ops[i]
      case OpPush(x) =>
        var ok := PushEither(q, spmc, x);
      case OpPop =>
        var spurious: nat := *;
        var item := q.TryPop(spurious);
        if item.Some? {
          returned := returned + [item.value];
        }
    }
    assert ops[..|ops|] == ops;
    q.PushedBound();
    TakeSnoc(q.pushed, q.popped, 0);
  }

  /** 2^32 pushes, each popped again: from then on the empty queue refuses, with three slots or more. */
  method Exhaust(spmc: bool, itemCount: int, x: u64) returns (q: Queue, ok: bool)
    requires 2 <= itemCount < 0x8000_0000
    ensures q.Valid() && q.cap == itemCount + 1 && |q.pushed| == U32_LIMIT && q.Model().items == []
    ensures !ok
  {
    hide SlotsOk;
    q := new Queue(itemCount);
    for i := 0 to U32_LIMIT
      invariant fresh(q) && fresh(q.slots) && q.Valid() && q.cap == itemCount + 1
      invariant |q.pushed| == i && q.Model().items == []
    {
      ok := PushEither(q, spmc, x);
      var item := q.TryPop(0);
    }
    ok := PushEither(q, spmc, x);
  }
}
