// The consumer side that the MPMC and the SPMC queue of c_queue.cpp have in common: the
// slots, the consumer index, and `try_pop` cut into its atomic accesses.
module TurnConsumer {
  import opened Tickets
  import opened Wrappers

  /** Where a thread is inside `try_pop`; the name says which access comes next. */
  datatype PopPc =
    | PopReturned(result: Option<u64>)  // not inside a call; what the last call returned
    | PopLoad                           // load the consumer index
    | PopCheck(tail: nat)               // load the turn of the slot of `tail`
    | PopCas(tail: nat)                 // turn matched: compare-exchange the consumer index
    | PopRead(tail: nat)                // ticket won: read the item
    | PopRelease(tail: nat, item: u64)  // store the next turn, return true
    | PopRecheck(tail: nat)             // turn did not match: load the consumer index again

  /**
   * Shared memory as the consumers see it. The last three fields are history, read by no
   * step: the item of every producer ticket issued so far, the thread that holds each
   * ticket popped but not yet released, and what each finished pop returned.
   */
  datatype Consumers = Consumers(
    cap: nat,
    slots: seq<Slot>,
    tail: nat,
    pops: seq<PopPc>,
    items: seq<u64>,
    taken: map<nat, nat>,
    delivered: map<nat, u64>)

  predicate Shape(c: Consumers) {
    c.cap >= 2 && |c.slots| == c.cap
  }

  /** The turn protocol's reading of a slot: ticket k has been filled. */
  ghost predicate Published(c: Consumers, k: nat)
    requires Shape(c)
  {
    c.slots[Idx(k, c.cap)].turn > 2 * Turn(k, c.cap)
  }

  /** Ticket k has been filled and emptied again. */
  ghost predicate Released(c: Consumers, k: nat)
    requires Shape(c)
  {
    c.slots[Idx(k, c.cap)].turn > 2 * Turn(k, c.cap) + 1
  }

  predicate Holds(pc: PopPc, k: nat) {
    (pc.PopRead? || pc.PopRelease?) && pc.tail == k
  }

  /** One access of `try_pop` by thread t; `spurious` makes a weak compare-exchange fail. */
  function PopStep(c: Consumers, t: nat, spurious: bool): (c': Consumers)
    requires Shape(c) && t < |c.pops|
    ensures Shape(c') && c'.cap == c.cap && c'.items == c.items && |c'.pops| == |c.pops|
  {
    match c.pops[t]
    case PopReturned(_) => c.(pops := c.pops[t := PopLoad])
    case PopLoad => c.(pops := c.pops[t := PopCheck(c.tail)])
    case PopCheck(k) =>
      c.(pops := c.pops[t := if PopCheckPasses(c.slots, c.cap, k) then PopCas(k) else PopRecheck(k)])
    case PopCas(k) =>
      if c.tail == k && !spurious then
        c.(tail := U32(k + 1), pops := c.pops[t := PopRead(k)], taken := c.taken[k := t])
      else
        c.(pops := c.pops[t := PopCheck(c.tail)])
    case PopRead(k) => c.(pops := c.pops[t := PopRelease(k, c.slots[Idx(k, c.cap)].item)])
    case PopRelease(k, x) =>
      var i := Idx(k, c.cap);
      var turn := U32(U32(Turn(k, c.cap) * 2 + 1) + 1);
      c.(slots := c.slots[i := c.slots[i].(turn := turn)],
         pops := c.pops[t := PopReturned(Some(x))],
         taken := c.taken - {k},
         delivered := c.delivered[k := x])
    case PopRecheck(k) =>
      c.(pops := c.pops[t := if c.tail == k then PopReturned(None) else PopCheck(c.tail)])
  }

  // ---- what holds in every state ------------------------------------------------------

  /** The slots hold exactly the tickets published and not yet released. */
  ghost predicate SlotsInv(c: Consumers) {
    && Shape(c)
    && (forall k: nat :: Released(c, k) ==> k < c.tail)
    && (forall k: nat :: k < c.tail ==> Published(c, k))
    && (forall k: nat :: Published(c, k) ==> k < |c.items|)
    && (forall k: nat :: Published(c, k) && !Released(c, k) ==> c.slots[Idx(k, c.cap)].item == c.items[k])
  }

  /** Each ticket popped and not released is held by exactly one thread. */
  ghost predicate TakenInv(c: Consumers)
    requires Shape(c)
  {
    && (forall k: nat :: k in c.taken <==> k < c.tail && !Released(c, k))
    && (forall k: nat :: k in c.taken ==> c.taken[k] < |c.pops| && Holds(c.pops[c.taken[k]], k))
  }

  ghost predicate PopOk(c: Consumers, t: nat)
    requires Shape(c) && t < |c.pops|
  {
    match c.pops[t]
    case PopReturned(_) => true
    case PopLoad => true
    case PopCheck(k) => k <= c.tail
    case PopRecheck(k) => k <= c.tail
    case PopCas(k) => k <= c.tail && Published(c, k)
    case PopRead(k) => k in c.taken && c.taken[k] == t
    case PopRelease(k, x) => k in c.taken && c.taken[k] == t && k < |c.items| && x == c.items[k]
  }

  /** Exactly the released tickets have been returned, each with the item of its push. */
  ghost predicate DeliveredInv(c: Consumers)
    requires Shape(c)
  {
    && (forall k: nat :: k in c.delivered <==> Released(c, k))
    && (forall k: nat :: k in c.delivered ==> k < |c.items| && c.delivered[k] == c.items[k])
  }

  ghost predicate Inv(c: Consumers) {
    && SlotsInv(c)
    && TakenInv(c)
    && DeliveredInv(c)
    && (forall t: nat :: t < |c.pops| ==> PopOk(c, t))
  }

  lemma SameSlots(c: Consumers, c': Consumers)
    requires Shape(c) && c'.cap == c.cap && c'.slots == c.slots
    ensures forall k: nat :: Published(c', k) == Published(c, k)
    ensures forall k: nat :: Released(c', k) == Released(c, k)
  {
  }

  // ---- the two ways a turn changes ----------------------------------------------------

  /** A ticket whose slot has the turn of its round is free: neither filled nor a lap late. */
  lemma TurnOfFree(c: Consumers, k: nat)
    requires Shape(c) && !Published(c, k) && (k >= c.cap ==> Released(c, k - c.cap))
    ensures c.slots[Idx(k, c.cap)].turn == 2 * Turn(k, c.cap)
  {
    if k >= c.cap {
      NextLap(k - c.cap, c.cap);
    } else {
      DivMod(k, 0, k, c.cap);
    }
  }

  lemma FreeOfTurn(c: Consumers, k: nat)
    requires Shape(c) && c.slots[Idx(k, c.cap)].turn == 2 * Turn(k, c.cap)
    ensures !Published(c, k) && (k >= c.cap ==> Released(c, k - c.cap))
  {
    if k >= c.cap {
      NextLap(k - c.cap, c.cap);
    }
  }

  /** Storing 2r + 1 over 2r publishes that one ticket. */
  lemma PublishEffect(c: Consumers, c': Consumers, k: nat)
    requires Shape(c) && c'.cap == c.cap
    requires c.slots[Idx(k, c.cap)].turn == 2 * Turn(k, c.cap)
    requires var i := Idx(k, c.cap);
             c'.slots == c.slots[i := c.slots[i].(turn := 2 * Turn(k, c.cap) + 1)]
    ensures forall j: nat :: Published(c', j) <==> Published(c, j) || j == k
    ensures forall j: nat :: Released(c', j) <==> Released(c, j)
    ensures !Published(c, k)
  {
    forall j: nat
      ensures Published(c', j) <==> Published(c, j) || j == k
      ensures Released(c', j) <==> Released(c, j)
    {
      if Idx(j, c.cap) == Idx(k, c.cap) {
        SameSlot(j, k, c.cap);
      }
    }
  }

  /** Storing 2r + 2 over 2r + 1 releases that one ticket. */
  lemma ReleaseEffect(c: Consumers, c': Consumers, k: nat)
    requires Shape(c) && c'.cap == c.cap
    requires Published(c, k) && !Released(c, k)
    requires var i := Idx(k, c.cap);
             c'.slots == c.slots[i := c.slots[i].(turn := 2 * Turn(k, c.cap) + 2)]
    ensures forall j: nat :: Published(c', j) <==> Published(c, j)
    ensures forall j: nat :: Released(c', j) <==> Released(c, j) || j == k
    ensures forall j: nat :: Published(c, j) && !Released(c, j) && Idx(j, c.cap) == Idx(k, c.cap) ==> j == k
  {
    forall j: nat
      ensures Published(c', j) <==> Published(c, j)
      ensures Released(c', j) <==> Released(c, j) || j == k
      ensures Published(c, j) && !Released(c, j) && Idx(j, c.cap) == Idx(k, c.cap) ==> j == k
    {
      if Idx(j, c.cap) == Idx(k, c.cap) {
        SameSlot(j, k, c.cap);
      }
    }
  }

  // ---- a pop step keeps the invariant -------------------------------------------------

  /** Moving one thread on, nothing else changing. */
  lemma MovePc(c: Consumers, t: nat, pc: PopPc)
    requires Inv(c) && t < |c.pops|
    requires PopOk(c.(pops := c.pops[t := pc]), t)
    requires forall k: nat :: Holds(c.pops[t], k) ==> Holds(pc, k)
    ensures Inv(c.(pops := c.pops[t := pc]))
  {
    var c' := c.(pops := c.pops[t := pc]);
    SameSlots(c, c');
    hide Published, Released;
    forall u: nat | u < |c'.pops| ensures PopOk(c', u) {
      assert PopOk(c, u);
    }
  }

  /** The steps that change no slot and no index. */
  lemma LocalPopStep(c: Consumers, t: nat, spurious: bool)
    requires Inv(c) && t < |c.pops| && |c.items| <= MAX_TICKETS
    requires !c.pops[t].PopRelease?
    requires !(c.pops[t].PopCas? && c.tail == c.pops[t].tail && !spurious)
    ensures Inv(PopStep(c, t, spurious))
  {
    var pc := PopStep(c, t, spurious).pops[t];
    LocalPopPc(c, t, spurious);
    MovePc(c, t, pc);
  }

  lemma LocalPopPc(c: Consumers, t: nat, spurious: bool)
    requires Inv(c) && t < |c.pops| && |c.items| <= MAX_TICKETS
    requires !c.pops[t].PopRelease?
    requires !(c.pops[t].PopCas? && c.tail == c.pops[t].tail && !spurious)
    ensures var pc := PopStep(c, t, spurious).pops[t];
            && PopStep(c, t, spurious) == c.(pops := c.pops[t := pc])
            && PopOk(c.(pops := c.pops[t := pc]), t)
            && (forall k: nat :: Holds(c.pops[t], k) ==> Holds(pc, k))
  {
    var pc := PopStep(c, t, spurious).pops[t];
    var c' := c.(pops := c.pops[t := pc]);
    assert PopOk(c, t);
    match c.pops[t]
    case PopCheck(k) =>
      if pc.PopCas? {
        CheckMatched(c, k);
        assert Published(c', k);
      }
    case PopRead(k) =>
      assert Published(c, k) && !Released(c, k);
    case _ =>
  }

  lemma CheckMatched(c: Consumers, k: nat)
    requires Inv(c) && k <= c.tail && |c.items| <= MAX_TICKETS
    requires PopCheckPasses(c.slots, c.cap, k)
    ensures Published(c, k)
  {
    if k > 0 {
      var last := k - 1;
      assert Published(c, last);
    }
    TurnFits(k, c.cap);
  }

  lemma {:induction false} ClaimPopStep(c: Consumers, t: nat)
    requires Inv(c) && t < |c.pops| && |c.items| <= MAX_TICKETS
    requires c.pops[t].PopCas? && c.tail == c.pops[t].tail
    ensures Inv(PopStep(c, t, false))
  {
    var c' := PopStep(c, t, false);
    assert PopOk(c, t);
    assert c'.tail == c.tail + 1;
    SameSlots(c, c');
    hide Published, Released;
    forall u: nat | u < |c'.pops| ensures PopOk(c', u) {
      assert PopOk(c, u);
    }
  }

  lemma {:induction false} ReleasePopStep(c: Consumers, t: nat)
    requires Inv(c) && t < |c.pops| && |c.items| <= MAX_TICKETS
    requires c.pops[t].PopRelease?
    ensures Inv(PopStep(c, t, false))
  {
    hide Idx, Turn;
    var c' := PopStep(c, t, false);
    var k := c.pops[t].tail;
    assert PopOk(c, t);
    assert Published(c, k) && !Released(c, k);
    TurnFits(k, c.cap);
    ReleaseEffect(c, c', k);
    forall u: nat | u < |c'.pops| ensures PopOk(c', u) {
      assert PopOk(c, u);
    }
  }

  /** One access of one pop keeps the invariant. */
  lemma PopStepInv(c: Consumers, t: nat, spurious: bool)
    requires Inv(c) && t < |c.pops| && |c.items| <= MAX_TICKETS
    ensures Inv(PopStep(c, t, spurious))
  {
    if c.pops[t].PopRelease? {
      ReleasePopStep(c, t);
    } else if c.pops[t].PopCas? && c.tail == c.pops[t].tail && !spurious {
      ClaimPopStep(c, t);
    } else {
      LocalPopStep(c, t, spurious);
    }
  }

  /** What a pop step leaves to the producers: no item moves, tickets are only released. */
  lemma PopStepFrame(c: Consumers, t: nat, spurious: bool)
    requires Inv(c) && t < |c.pops| && |c.items| <= MAX_TICKETS
    ensures var c' := PopStep(c, t, spurious);
            && (forall i | 0 <= i < c.cap :: c'.slots[i].item == c.slots[i].item)
            && (forall k: nat :: Published(c', k) <==> Published(c, k))
            && (forall k: nat :: Released(c, k) ==> Released(c', k))
            && c.tail <= c'.tail
            && (forall k: nat :: k in c.delivered ==> k in c'.delivered && c'.delivered[k] == c.delivered[k])
  {
    hide Idx, Turn;
    var c' := PopStep(c, t, spurious);
    if c.pops[t].PopRelease? {
      var k := c.pops[t].tail;
      assert PopOk(c, t);
      assert Published(c, k) && !Released(c, k);
      TurnFits(k, c.cap);
      ReleaseEffect(c, c', k);
    } else {
      assert PopOk(c, t);
      assert c'.slots == c.slots;
    }
  }

  // ---- what the producers do to the consumers' invariant ------------------------------

  /** Claiming a producer ticket. */
  lemma ItemsGrow(c: Consumers, item: u64)
    requires Inv(c)
    ensures Inv(c.(items := c.items + [item]))
  {
    var c' := c.(items := c.items + [item]);
    SameSlots(c, c');
    hide Published, Released;
    forall t: nat | t < |c'.pops| ensures PopOk(c', t) {
      assert PopOk(c, t);
    }
  }

  /** Writing the item of a slot whose turn says free. */
  lemma WriteFree(c: Consumers, k: nat, item: u64)
    requires Inv(c) && c.slots[Idx(k, c.cap)].turn == 2 * Turn(k, c.cap)
    ensures var i := Idx(k, c.cap);
            var c' := c.(slots := c.slots[i := c.slots[i].(item := item)]);
            && Inv(c')
            && (forall j: nat :: Published(c', j) == Published(c, j) && Released(c', j) == Released(c, j))
  {
    var i := Idx(k, c.cap);
    var c' := c.(slots := c.slots[i := c.slots[i].(item := item)]);
    assert forall j: nat :: Published(c', j) == Published(c, j) && Released(c', j) == Released(c, j);
    forall t: nat | t < |c'.pops| ensures PopOk(c', t) {
      assert PopOk(c, t);
    }
  }

  /** Publishing ticket k, its item being in place. */
  lemma PublishKeeps(c: Consumers, c': Consumers, k: nat)
    requires Inv(c) && k < |c.items| && c.slots[Idx(k, c.cap)].item == c.items[k]
    requires c.slots[Idx(k, c.cap)].turn == 2 * Turn(k, c.cap)
    requires var i := Idx(k, c.cap);
             c' == c.(slots := c.slots[i := c.slots[i].(turn := 2 * Turn(k, c.cap) + 1)])
    ensures Inv(c')
  {
    PublishEffect(c, c', k);
    forall t: nat | t < |c'.pops| ensures PopOk(c', t) {
      assert PopOk(c, t);
    }
  }
}
