// What the multi-producer multi-consumer queue promises, for every schedule of any number
// of threads that issues at most 2^32 - 2 tickets.
module MpmcTheorems {
  import opened Tickets
  import opened Wrappers
  import opened TurnConsumer
  import opened MpmcProtocol

  /** The queue as constructed, with any capacity and any threads, after any schedule. */
  ghost predicate Reachable(s: State) {
    && Shape(s.c)
    && |s.c.items| <= MAX_TICKETS
    && exists cap: nat, pushers: nat, poppers: nat, schedule: seq<Move> ::
         cap >= 2 && s == Run(Init(cap, pushers, poppers), schedule)
  }

  lemma ReachableInv(s: State)
    requires Reachable(s)
    ensures MpmcProtocol.Inv(s)
  {
    var cap: nat, pushers: nat, poppers: nat, schedule: seq<Move> :|
      cap >= 2 && s == Run(Init(cap, pushers, poppers), schedule);
    InitInv(cap, pushers, poppers);
    RunInv(Init(cap, pushers, poppers), schedule);
  }

  ghost predicate NoPopInFlight(s: State) {
    forall t: nat, k: nat :: t < |s.c.pops| ==> !Holds(s.c.pops[t], k)
  }

  ghost predicate NoPushInFlight(s: State) {
    forall t: nat, k: nat :: t < |s.pushes| ==> !Fills(s.pushes[t], k)
  }

  // ---- mutual exclusion on a slot -----------------------------------------------------

  /** At most one thread is between winning a ticket and storing the turn of its slot. */
  lemma SlotOwnership(s: State, t: nat, u: nat, j: nat, k: nat)
    requires Reachable(s)
    requires Idx(j, s.c.cap) == Idx(k, s.c.cap)
    ensures t < |s.pushes| && u < |s.pushes| && Fills(s.pushes[t], j) && Fills(s.pushes[u], k)
      ==> t == u && j == k
    ensures t < |s.c.pops| && u < |s.c.pops| && Holds(s.c.pops[t], j) && Holds(s.c.pops[u], k)
      ==> t == u && j == k
    ensures !(t < |s.pushes| && u < |s.c.pops| && Fills(s.pushes[t], j) && Holds(s.c.pops[u], k))
  {
    hide Idx, Turn, SlotsInv, TakenInv, DeliveredInv, PopOk, FillingInv, PushOk, Reachable;
    ReachableInv(s);
    if t < |s.pushes| && Fills(s.pushes[t], j) {
      FillOwner(s, t, j);
      if u < |s.pushes| && Fills(s.pushes[u], k) {
        FillOwner(s, u, k);
        OwnersOfOneSlot(s, j, k);
      }
      if u < |s.c.pops| && Holds(s.c.pops[u], k) {
        HoldOwner(s, u, k);
      }
    }
    if t < |s.c.pops| && Holds(s.c.pops[t], j) && u < |s.c.pops| && Holds(s.c.pops[u], k) {
      HoldOwner(s, t, j);
      HoldOwner(s, u, k);
      OneFilledTicket(s.c, j, k);
    }
  }

  lemma FillOwner(s: State, t: nat, k: nat)
    requires MpmcProtocol.Inv(s) && t < |s.pushes| && Fills(s.pushes[t], k)
    ensures k in s.filling && s.filling[k] == t
    ensures s.c.slots[Idx(k, s.c.cap)].turn == 2 * Turn(k, s.c.cap)
  {
    assert PushOk(s, t);
    TurnOfFree(s.c, k);
  }

  lemma HoldOwner(s: State, t: nat, k: nat)
    requires MpmcProtocol.Inv(s) && t < |s.c.pops| && Holds(s.c.pops[t], k)
    ensures k in s.c.taken && s.c.taken[k] == t
    ensures s.c.slots[Idx(k, s.c.cap)].turn == 2 * Turn(k, s.c.cap) + 1
  {
    assert PopOk(s.c, t);
    assert Published(s.c, k) && !Released(s.c, k);
  }

  lemma OneFilledTicket(c: Consumers, j: nat, k: nat)
    requires TurnConsumer.Inv(c) && j in c.taken && k in c.taken && Idx(j, c.cap) == Idx(k, c.cap)
    ensures j == k
  {
    assert Published(c, j) && !Released(c, j) && Published(c, k) && !Released(c, k);
    SameSlot(j, k, c.cap);
  }

  /** The turn of a slot tells exactly which of its tickets were filled and emptied. */
  lemma TurnMeaning(s: State, k: nat)
    requires Reachable(s)
    ensures var turn, r := s.c.slots[Idx(k, s.c.cap)].turn, Turn(k, s.c.cap);
            && (turn > 2 * r + 1 <==> k in s.c.delivered)
            && (turn == 2 * r + 1 <==> k < s.head && k !in s.filling && k !in s.c.delivered)
            && (turn < 2 * r + 1 <==> k >= s.head || k in s.filling)
            && (k in s.filling ==> turn == 2 * r)
  {
    ReachableInv(s);
    if k in s.filling {
      TurnOfFree(s.c, k);
    } else if k < s.head {
      assert Published(s.c, k);
    } else {
      assert !Published(s.c, k);
    }
  }

  /** A turn check that passed is still right when the compare-exchange finds the index unmoved. */
  lemma CheckStaysValid(s: State, t: nat)
    requires Reachable(s)
    ensures t < |s.pushes| && s.pushes[t].PushCas? && s.pushes[t].head == s.head
      ==> s.c.slots[Idx(s.head, s.c.cap)].turn == 2 * Turn(s.head, s.c.cap)
    ensures t < |s.c.pops| && s.c.pops[t].PopCas? && s.c.pops[t].tail == s.c.tail
      ==> s.c.slots[Idx(s.c.tail, s.c.cap)].turn == 2 * Turn(s.c.tail, s.c.cap) + 1
  {
    hide Idx, Turn;
    ReachableInv(s);
    if t < |s.pushes| && s.pushes[t].PushCas? && s.pushes[t].head == s.head {
      assert PushOk(s, t);
      assert !Published(s.c, s.head);
      TurnOfFree(s.c, s.head);
    }
    if t < |s.c.pops| && s.c.pops[t].PopCas? {
      assert PopOk(s.c, t);
      assert !Released(s.c, s.c.tail);
    }
  }

  // ---- nothing lost, duplicated or invented -------------------------------------------

  /** The consumer index trails the producer index by at most the number of slots. */
  lemma Occupancy(s: State)
    requires Reachable(s)
    ensures s.head == |s.c.items|
    ensures s.c.tail <= s.head <= s.c.tail + s.c.cap
  {
    ReachableInv(s);
    if s.c.tail > 0 {
      assert Published(s.c, s.c.tail - 1);
    }
    if s.head > s.c.cap {
      assert Released(s.c, s.head - 1 - s.c.cap);
    }
  }

  /**
   * Every ticket is in exactly one place: being filled by one push, filled in its slot,
   * held by one pop, or returned; and wherever an item is, it is the one pushed.
   */
  lemma ExactlyOnce(s: State, k: nat)
    requires Reachable(s) && k < |s.c.items|
    ensures k in s.c.delivered ==> k < s.c.tail && k !in s.c.taken && k !in s.filling
    ensures k in s.c.taken ==> k < s.c.tail && k !in s.filling
    ensures k in s.filling ==> k >= s.c.tail
    ensures k < s.c.tail ==> k in s.c.taken || k in s.c.delivered
    ensures k in s.c.delivered ==> s.c.delivered[k] == s.c.items[k]
    ensures k in s.c.taken || (k >= s.c.tail && k !in s.filling)
      ==> s.c.slots[Idx(k, s.c.cap)].item == s.c.items[k]
  {
    ReachableInv(s);
    assert Released(s.c, k) ==> Published(s.c, k);
  }

  /** A pop that returns delivers a ticket that was not returned before, with that push's item. */
  lemma PopReturnsItsTicket(s: State, t: nat, spurious: bool)
    requires Reachable(s)
    requires t < |s.c.pops| && s.c.pops[t].PopRelease?
    ensures var k := s.c.pops[t].tail;
            && k < |s.c.items| && k !in s.c.delivered
            && Step(s, PopMove(t, spurious)).c.delivered == s.c.delivered[k := s.c.items[k]]
  {
    hide Idx, Turn;
    ReachableInv(s);
    assert PopOk(s.c, t);
    assert !Released(s.c, s.c.pops[t].tail);
  }

  /** With no pop in flight the items returned are, in ticket order, the first items pushed. */
  lemma QuiescentFifo(s: State)
    requires Reachable(s) && NoPopInFlight(s)
    ensures s.c.tail <= |s.c.items|
    ensures forall k: nat :: k in s.c.delivered <==> k < s.c.tail
    ensures seq(s.c.tail, k requires 0 <= k < s.c.tail => s.c.delivered[k]) == s.c.items[..s.c.tail]
    ensures NoPushInFlight(s) ==>
      forall k: nat :: s.c.tail <= k < |s.c.items| ==> s.c.slots[Idx(k, s.c.cap)].item == s.c.items[k]
  {
    ReachableInv(s);
    Occupancy(s);
    NothingTaken(s);
    if NoPushInFlight(s) {
      forall k: nat | s.c.tail <= k < |s.c.items| ensures s.c.slots[Idx(k, s.c.cap)].item == s.c.items[k] {
        NothingFilling(s, k);
        assert Published(s.c, k) && !Released(s.c, k);
      }
    }
  }

  lemma NothingTaken(s: State)
    requires MpmcProtocol.Inv(s) && NoPopInFlight(s)
    ensures forall k: nat :: k !in s.c.taken
    ensures forall k: nat :: Released(s.c, k) <==> k < s.c.tail
  {
    forall k: nat ensures k !in s.c.taken {
    }
  }

  lemma NothingFilling(s: State, k: nat)
    requires MpmcProtocol.Inv(s) && NoPushInFlight(s)
    ensures k !in s.filling
    ensures Published(s.c, k) <==> k < s.head
  {
  }

  /** The turn check at the producer index passes exactly when the ticket a lap behind is released. */
  lemma PushCheckOfReleased(s: State)
    requires MpmcProtocol.Inv(s) && |s.c.items| <= MAX_TICKETS
    ensures PushCheckPasses(s.c.slots, s.c.cap, s.head) <==> (s.head >= s.c.cap ==> Released(s.c, s.head - s.c.cap))
  {
    hide Idx, Turn;
    var h := s.head;
    TurnFits(h, s.c.cap);
    assert !Published(s.c, h);
    if h < s.c.cap || Released(s.c, h - s.c.cap) {
      TurnOfFree(s.c, h);
    } else if s.c.slots[Idx(h, s.c.cap)].turn == 2 * Turn(h, s.c.cap) {
      FreeOfTurn(s.c, h);
    }
  }

  // ---- what a refusal tells -----------------------------------------------------------

  /**
   * A push whose turn check fails at `check` while the producer index never moves on until
   * its second load: the ticket a full lap behind was not yet released, and if no pop was in
   * flight the queue was exactly full.
   */
  lemma PushRefusalIsTruthful(check: State, s: State, later: seq<Move>, t: nat)
    requires Reachable(check)
    requires s == Run(check, later) && |s.c.items| <= MAX_TICKETS
    requires t < |check.pushes| && check.pushes[t].PushCheck?
    requires var h := check.pushes[t].head;
             !PushCheckPasses(check.c.slots, check.c.cap, h) && s.head == h
    ensures var h := check.head;
            && h == s.head && h >= check.c.cap
            && h - check.c.cap !in check.c.delivered
            && (NoPopInFlight(check) ==> check.head == check.c.tail + check.c.cap)
  {
    hide Idx, Turn;
    ReachableInv(check);
    RunInv(check, later);
    assert PushOk(check, t) && check.head <= s.head;
    PushCheckOfReleased(check);
    if NoPopInFlight(check) {
      NothingTaken(check);
      Occupancy(check);
    }
  }

  /** The same for a pop: its ticket was not yet published when its turn was loaded. */
  lemma PopRefusalIsTruthful(check: State, s: State, later: seq<Move>, t: nat)
    requires Reachable(check)
    requires s == Run(check, later) && |s.c.items| <= MAX_TICKETS
    requires t < |check.c.pops| && check.c.pops[t].PopCheck?
    requires var k := check.c.pops[t].tail;
             !PopCheckPasses(check.c.slots, check.c.cap, k) && s.c.tail == k
    ensures var k := check.c.tail;
            && k == s.c.tail
            && (k >= check.head || k in check.filling)
            && (NoPushInFlight(check) ==> check.head == check.c.tail)
  {
    hide Idx, Turn;
    ReachableInv(check);
    RunInv(check, later);
    TailGrows(check, later);
    assert PopOk(check.c, t);
    var k := check.c.tail;
    Occupancy(check);
    TurnFits(k, check.c.cap);
    assert !Released(check.c, k);
    if NoPushInFlight(check) {
      NothingFilling(check, k);
    }
  }

  lemma {:induction false} RunJoin(s: State, a: seq<Move>, b: seq<Move>)
    requires Shape(s.c)
    ensures Run(s, a + b) == Run(Run(s, a), b)
    decreases |b|
  {
    hide Step;
    if b == [] {
      assert a + b == a;
    } else {
      var n := |b| - 1;
      RunJoin(s, a, b[..n]);
      assert (a + b)[..|a| + n] == a + b[..n];
    }
  }

  /** A thread is at its second load because of the last move, a failed turn check, or was there before. */
  lemma SecondLoad(s: State, m: Move, t: nat)
    requires Shape(s.c)
    ensures t < |s.pushes| && Step(s, m).pushes[t].PushRecheck? ==>
      var pc := Step(s, m).pushes[t];
      s.pushes[t] == pc || (s.pushes[t] == PushCheck(pc.item, pc.head) && !PushCheckPasses(s.c.slots, s.c.cap, pc.head))
    ensures t < |s.c.pops| && Step(s, m).c.pops[t].PopRecheck? ==>
      var pc := Step(s, m).c.pops[t];
      s.c.pops[t] == pc || (s.c.pops[t] == PopCheck(pc.tail) && !PopCheckPasses(s.c.slots, s.c.cap, pc.tail))
  {
    hide Idx, Turn, PushCheckPasses, PopCheckPasses;
  }

  /** A push at its second load has waited there since a failed turn check. */
  lemma {:induction false} FailedPushCheck(s: State, schedule: seq<Move>, t: nat) returns (n: nat)
    requires Shape(s.c) && t < |s.pushes| && !s.pushes[t].PushRecheck?
    requires Run(s, schedule).pushes[t].PushRecheck?
    ensures n < |schedule|
    ensures var check, pc := Run(s, schedule[..n]), Run(s, schedule).pushes[t];
            check.pushes[t] == PushCheck(pc.item, pc.head) && !PushCheckPasses(check.c.slots, check.c.cap, pc.head)
    ensures forall m | n < m <= |schedule| :: Run(s, schedule[..m]).pushes[t] == Run(s, schedule).pushes[t]
    decreases |schedule|
  {
    hide Step, PushCheckPasses;
    n := |schedule| - 1;
    SecondLoad(Run(s, schedule[..n]), schedule[n], t);
    if Run(s, schedule[..n]).pushes[t].PushRecheck? {
      var last := n;
      n := FailedPushCheck(s, schedule[..last], t);
      forall m | n <= m <= last ensures schedule[..last][..m] == schedule[..m] {
      }
    }
    assert schedule[..|schedule|] == schedule;
  }

  /** A pop at its second load has waited there since a failed turn check. */
  lemma {:induction false} FailedPopCheck(s: State, schedule: seq<Move>, t: nat) returns (n: nat)
    requires Shape(s.c) && t < |s.c.pops| && !s.c.pops[t].PopRecheck?
    requires Run(s, schedule).c.pops[t].PopRecheck?
    ensures n < |schedule|
    ensures var check, pc := Run(s, schedule[..n]), Run(s, schedule).c.pops[t];
            check.c.pops[t] == PopCheck(pc.tail) && !PopCheckPasses(check.c.slots, check.c.cap, pc.tail)
    ensures forall m | n < m <= |schedule| :: Run(s, schedule[..m]).c.pops[t] == Run(s, schedule).c.pops[t]
    decreases |schedule|
  {
    hide Step, PopCheckPasses;
    n := |schedule| - 1;
    SecondLoad(Run(s, schedule[..n]), schedule[n], t);
    if Run(s, schedule[..n]).c.pops[t].PopRecheck? {
      var last := n;
      n := FailedPopCheck(s, schedule[..last], t);
      forall m | n <= m <= last ensures schedule[..last][..m] == schedule[..m] {
      }
    }
    assert schedule[..|schedule|] == schedule;
  }

  /** The only access after which a call returns false. */
  lemma Refuses(s: State, t: nat, item: u64, spurious: bool)
    requires Shape(s.c)
    ensures t < |s.pushes| && PushStep(s, t, item, spurious).pushes[t] == PushReturned(false)
      ==> s.pushes[t].PushRecheck? && s.head == s.pushes[t].head
    ensures t < |s.c.pops| && PopStep(s.c, t, spurious).pops[t] == PopReturned(None)
      ==> s.c.pops[t].PopRecheck? && s.c.tail == s.c.pops[t].tail
  {
    hide Idx, Turn, PushCheckPasses, PopCheckPasses;
  }

  lemma AllOutside(cap: nat, pushers: nat, poppers: nat)
    requires cap >= 2
    ensures var s := Init(cap, pushers, poppers);
            && s.c.cap == cap && |s.pushes| == pushers && |s.c.pops| == poppers
            && (forall t | 0 <= t < pushers :: s.pushes[t].PushReturned?)
            && (forall t | 0 <= t < poppers :: s.c.pops[t].PopReturned?)
  {
  }

  lemma Prefix(cap: nat, pushers: nat, poppers: nat, schedule: seq<Move>, n: nat)
    requires cap >= 2 && n <= |schedule|
    requires |Run(Init(cap, pushers, poppers), schedule).c.items| <= MAX_TICKETS
    ensures var s0 := Init(cap, pushers, poppers);
            && Reachable(Run(s0, schedule[..n]))
            && Run(Run(s0, schedule[..n]), schedule[n..]) == Run(s0, schedule)
  {
    hide Run, Init;
    RunJoin(Init(cap, pushers, poppers), schedule[..n], schedule[n..]);
    assert schedule == schedule[..n] + schedule[n..];
  }

  /**
   * Whenever try_push returns false, that call loaded its turn after `n` moves, at the index
   * it still finds now, and has waited at its second load since. At that turn load the ticket
   * a lap behind was not yet returned: with no pop in flight there, the queue was full.
   */
  lemma PushRefused(cap: nat, pushers: nat, poppers: nat, schedule: seq<Move>, t: nat, item: u64, spurious: bool)
    returns (n: nat)
    requires cap >= 2 && t < pushers
    requires var s := Run(Init(cap, pushers, poppers), schedule);
             |s.c.items| <= MAX_TICKETS && PushStep(s, t, item, spurious).pushes[t] == PushReturned(false)
    ensures n < |schedule|
    ensures var check, s := Run(Init(cap, pushers, poppers), schedule[..n]), Run(Init(cap, pushers, poppers), schedule);
            && s.pushes[t].PushRecheck? && check.pushes[t] == PushCheck(s.pushes[t].item, s.pushes[t].head)
            && check.head == s.head == s.pushes[t].head >= cap
            && check.head - cap !in check.c.delivered
            && (NoPopInFlight(check) ==> check.head == check.c.tail + cap)
    ensures forall m | n < m <= |schedule| ::
              Run(Init(cap, pushers, poppers), schedule[..m]).pushes[t]
              == Run(Init(cap, pushers, poppers), schedule).pushes[t]
  {
    hide *;
    var s0 := Init(cap, pushers, poppers);
    Refuses(Run(s0, schedule), t, item, spurious);
    AllOutside(cap, pushers, poppers);
    n := FailedPushCheck(s0, schedule, t);
    Prefix(cap, pushers, poppers, schedule, n);
    PushRefusalIsTruthful(Run(s0, schedule[..n]), Run(s0, schedule), schedule[n..], t);
  }

  /**
   * Whenever try_pop returns false, that call loaded its turn after `n` moves, at the index it
   * still finds now, and has waited at its second load since. At that turn load its ticket was
   * unpublished: with no push in flight there, the queue was empty.
   */
  lemma PopRefused(cap: nat, pushers: nat, poppers: nat, schedule: seq<Move>, t: nat, spurious: bool)
    returns (n: nat)
    requires cap >= 2 && t < poppers
    requires var s := Run(Init(cap, pushers, poppers), schedule);
             |s.c.items| <= MAX_TICKETS && PopStep(s.c, t, spurious).pops[t] == PopReturned(None)
    ensures n < |schedule|
    ensures var check, s := Run(Init(cap, pushers, poppers), schedule[..n]), Run(Init(cap, pushers, poppers), schedule);
            && s.c.pops[t].PopRecheck? && check.c.pops[t] == PopCheck(s.c.pops[t].tail)
            && check.c.tail == s.c.tail == s.c.pops[t].tail
            && (check.c.tail >= check.head || check.c.tail in check.filling)
            && (NoPushInFlight(check) ==> check.head == check.c.tail)
    ensures forall m | n < m <= |schedule| ::
              Run(Init(cap, pushers, poppers), schedule[..m]).c.pops[t]
              == Run(Init(cap, pushers, poppers), schedule).c.pops[t]
  {
    hide *;
    var s0 := Init(cap, pushers, poppers);
    Refuses(Run(s0, schedule), t, 0, spurious);
    AllOutside(cap, pushers, poppers);
    n := FailedPopCheck(s0, schedule, t);
    Prefix(cap, pushers, poppers, schedule, n);
    PopRefusalIsTruthful(Run(s0, schedule[..n]), Run(s0, schedule), schedule[n..], t);
  }

  /** The consumer index only grows and a returned ticket stays returned. */
  ghost predicate Grown(s: State, s': State) {
    && s.c.tail <= s'.c.tail
    && (forall k: nat :: k in s.c.delivered ==> k in s'.c.delivered && s'.c.delivered[k] == s.c.delivered[k])
  }

  lemma StepGrows(s: State, m: Move)
    requires MpmcProtocol.Inv(s) && |s.c.items| <= MAX_TICKETS
    ensures Grown(s, Step(s, m))
  {
    hide SlotsInv, TakenInv, DeliveredInv, PopOk, FillingInv, PushOk;
    match m
    case PushMove(_, _, _) =>
    case PopMove(t, spurious) =>
      if t < |s.c.pops| { PopStepFrame(s.c, t, spurious); }
  }

  lemma {:induction false} TailGrows(s: State, schedule: seq<Move>)
    requires MpmcProtocol.Inv(s) && |Run(s, schedule).c.items| <= MAX_TICKETS
    ensures Grown(s, Run(s, schedule))
    decreases |schedule|
  {
    if schedule != [] {
      var n := |schedule| - 1;
      TailGrows(s, schedule[..n]);
      RunInv(s, schedule[..n]);
      StepGrows(Run(s, schedule[..n]), schedule[n]);
    }
  }

  /** With no pop in flight, a push that loads now passes its check exactly when not full. */
  lemma PushCheckIff(s: State)
    requires Reachable(s) && NoPopInFlight(s)
    ensures PushCheckPasses(s.c.slots, s.c.cap, s.head) <==> s.head - s.c.tail < s.c.cap
  {
    ReachableInv(s);
    Occupancy(s);
    NothingTaken(s);
    PushCheckOfReleased(s);
  }

  /** With no push in flight, a pop that loads now passes its check exactly when not empty. */
  lemma PopCheckIff(s: State)
    requires Reachable(s) && NoPushInFlight(s)
    ensures PopCheckPasses(s.c.slots, s.c.cap, s.c.tail) <==> s.c.tail < s.head
  {
    ReachableInv(s);
    Occupancy(s);
    var k := s.c.tail;
    NothingFilling(s, k);
    TurnFits(k, s.c.cap);
    assert !Released(s.c, k);
  }
}
