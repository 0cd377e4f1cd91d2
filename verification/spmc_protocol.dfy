// The single-producer multi-consumer queue of c_queue.cpp under arbitrary interleaving.
// Its one producer stores the odd turn before it advances its own index, so a consumer can
// be a ticket ahead of that index.
module SpmcProtocol {
  import opened Tickets
  import opened Wrappers
  import opened TurnConsumer

  /** Where the producer is inside `try_push`; the name says which access comes next. */
  datatype ProdPc =
    | ProdReturned(ok: bool)
    | ProdLoad(item: u64)                 // load the producer index
    | ProdCheck(item: u64, head: nat)     // load the turn of the slot of `head`
    | ProdWrite(item: u64, head: nat)     // write the item
    | ProdPublish(item: u64, head: nat)   // store the odd turn
    | ProdAdvance(head: nat)              // store the producer index, return true

  datatype State = State(c: Consumers, head: nat, prod: ProdPc)

  datatype Move = ProdMove(item: u64) | PopMove(t: nat, spurious: bool)

  function Init(cap: nat, poppers: nat): (s: State)
    requires cap >= 2
    ensures Shape(s.c)
  {
    State(Consumers(cap, seq(cap, i => Slot(0, 0)), 0, seq(poppers, i => PopReturned(None)), [], map[], map[]),
          0, ProdReturned(false))
  }

  /** One access of `try_push`; `item` is used when a call starts. */
  function ProdStep(s: State, item: u64): (s': State)
    requires Shape(s.c)
    ensures Shape(s'.c) && s'.c.cap == s.c.cap && s'.c.pops == s.c.pops && s.c.items <= s'.c.items
  {
    var c := s.c;
    match s.prod
    case ProdReturned(_) => s.(prod := ProdLoad(item))
    case ProdLoad(x) => s.(prod := ProdCheck(x, s.head))
    case ProdCheck(x, h) => s.(prod := if PushCheckPasses(c.slots, c.cap, h) then ProdWrite(x, h) else ProdReturned(false))
    case ProdWrite(x, h) =>
      var i := Idx(h, c.cap);
      s.(prod := ProdPublish(x, h),
         c := c.(slots := c.slots[i := c.slots[i].(item := x)], items := c.items + [x]))
    case ProdPublish(x, h) =>
      var i := Idx(h, c.cap);
      var turn := U32(U32(Turn(h, c.cap) * 2) + 1);
      s.(prod := ProdAdvance(h), c := c.(slots := c.slots[i := c.slots[i].(turn := turn)]))
    case ProdAdvance(h) => s.(prod := ProdReturned(true), head := U32(h + 1))
  }

  function Step(s: State, m: Move): (s': State)
    requires Shape(s.c)
    ensures Shape(s'.c) && s'.c.cap == s.c.cap && s.c.items <= s'.c.items && |s'.c.pops| == |s.c.pops|
  {
    match m
    case ProdMove(item) => ProdStep(s, item)
    case PopMove(t, spurious) => if t < |s.c.pops| then s.(c := PopStep(s.c, t, spurious)) else s
  }

  function Run(s: State, schedule: seq<Move>): (s': State)
    requires Shape(s.c)
    ensures Shape(s'.c) && s'.c.cap == s.c.cap && s.c.items <= s'.c.items && |s'.c.pops| == |s.c.pops|
    decreases |schedule|
  {
    if schedule == [] then s
    else
      var n := |schedule| - 1;
      Step(Run(s, schedule[..n]), schedule[n])
  }

  // ---- the invariant ------------------------------------------------------------------

  /** The number of tickets whose odd turn has been stored. */
  function PublishedCount(s: State): nat {
    s.head + if s.prod.ProdAdvance? then 1 else 0
  }

  ghost predicate ProdOk(s: State)
    requires Shape(s.c)
  {
    match s.prod
    case ProdReturned(_) => true
    case ProdLoad(_) => true
    case ProdCheck(_, h) => h == s.head
    case ProdWrite(_, h) => h == s.head && (h >= s.c.cap ==> Released(s.c, h - s.c.cap))
    case ProdPublish(x, h) =>
      && h == s.head && h + 1 == |s.c.items| && s.c.items[h] == x && s.c.slots[Idx(h, s.c.cap)].item == x
    case ProdAdvance(h) => h == s.head
  }

  ghost predicate Inv(s: State) {
    && TurnConsumer.Inv(s.c)
    && |s.c.items| == s.head + (if s.prod.ProdPublish? || s.prod.ProdAdvance? then 1 else 0)
    && (forall k: nat :: Published(s.c, k) <==> k < PublishedCount(s))
    && (forall k: nat :: k + s.c.cap < |s.c.items| ==> Released(s.c, k))
    && ProdOk(s)
  }

  lemma InitInv(cap: nat, poppers: nat)
    requires cap >= 2
    ensures Inv(Init(cap, poppers))
  {
  }

  lemma PopKeeps(s: State, t: nat, spurious: bool)
    requires Inv(s) && t < |s.c.pops| && |s.c.items| <= MAX_TICKETS
    ensures Inv(s.(c := PopStep(s.c, t, spurious)))
  {
    PopStepInv(s.c, t, spurious);
    PopStepFrame(s.c, t, spurious);
    hide Published, Released, PopStep;
  }

  /** The turn check at the producer index passes exactly when the ticket a lap behind is released. */
  lemma CheckOfReleased(s: State)
    requires Inv(s) && !s.prod.ProdAdvance? && s.head <= MAX_TICKETS
    ensures PushCheckPasses(s.c.slots, s.c.cap, s.head) <==> (s.head >= s.c.cap ==> Released(s.c, s.head - s.c.cap))
  {
    var h := s.head;
    TurnFits(h, s.c.cap);
    assert !Published(s.c, h);
    if h < s.c.cap || Released(s.c, h - s.c.cap) {
      TurnOfFree(s.c, h);
    } else if s.c.slots[Idx(h, s.c.cap)].turn == 2 * Turn(h, s.c.cap) {
      FreeOfTurn(s.c, h);
    }
  }

  lemma WriteStep(s: State, item: u64)
    requires Inv(s) && s.prod.ProdWrite? && |s.c.items| < MAX_TICKETS
    ensures Inv(ProdStep(s, item))
  {
    var s' := ProdStep(s, item);
    var x, h := s.prod.item, s.prod.head;
    var i := Idx(h, s.c.cap);
    var written := s.c.(slots := s.c.slots[i := s.c.slots[i].(item := x)]);
    assert !Published(s.c, h);
    TurnOfFree(s.c, h);
    WriteFree(s.c, h, x);
    ItemsGrow(written, x);
    SameSlots(written, s'.c);
    hide Published, Released;
    forall k: nat | k + s.c.cap < |s'.c.items| ensures Released(s'.c, k) {
      if k + s.c.cap == s.head {
        assert Released(s.c, s.head - s.c.cap);
      }
    }
  }

  lemma PublishStep(s: State, item: u64)
    requires Inv(s) && s.prod.ProdPublish? && |s.c.items| <= MAX_TICKETS
    ensures Inv(ProdStep(s, item))
  {
    var s' := ProdStep(s, item);
    var h := s.prod.head;
    assert !Published(s.c, h);
    if h >= s.c.cap {
      assert Released(s.c, h - s.c.cap);
    }
    TurnOfFree(s.c, h);
    TurnFits(h, s.c.cap);
    PublishEffect(s.c, s'.c, h);
    PublishKeeps(s.c, s'.c, h);
    hide Published, Released;
  }

  lemma ProdKeeps(s: State, item: u64)
    requires Inv(s) && |ProdStep(s, item).c.items| <= MAX_TICKETS
    ensures Inv(ProdStep(s, item))
  {
    if s.prod.ProdWrite? {
      WriteStep(s, item);
    } else if s.prod.ProdPublish? {
      PublishStep(s, item);
    } else {
      if s.prod.ProdCheck? {
        CheckOfReleased(s);
      }
      hide Published, Released;
    }
  }

  /** Every interleaving of the producer with any number of consumers keeps the invariant. */
  lemma {:induction false} RunInv(s: State, schedule: seq<Move>)
    requires Inv(s) && |Run(s, schedule).c.items| <= MAX_TICKETS
    ensures Inv(Run(s, schedule))
    decreases |schedule|
  {
    if schedule != [] {
      var n := |schedule| - 1;
      RunInv(s, schedule[..n]);
      match schedule[n]
      case ProdMove(item) =>
        ProdKeeps(Run(s, schedule[..n]), item);
      case PopMove(t, spurious) =>
        if t < |Run(s, schedule[..n]).c.pops| { PopKeeps(Run(s, schedule[..n]), t, spurious); }
    }
  }

  // ---- what the queue promises --------------------------------------------------------

  /** The queue as constructed, with any capacity and any consumers, after any schedule. */
  ghost predicate Reachable(s: State) {
    && Shape(s.c)
    && |s.c.items| <= MAX_TICKETS
    && exists cap: nat, poppers: nat, schedule: seq<Move> ::
         cap >= 2 && s == Run(Init(cap, poppers), schedule)
  }

  lemma ReachableInv(s: State)
    requires Reachable(s)
    ensures Inv(s)
  {
    var cap: nat, poppers: nat, schedule: seq<Move> :| cap >= 2 && s == Run(Init(cap, poppers), schedule);
    InitInv(cap, poppers);
    RunInv(Init(cap, poppers), schedule);
  }

  ghost predicate NoPopInFlight(s: State) {
    forall t: nat, k: nat :: t < |s.c.pops| ==> !Holds(s.c.pops[t], k)
  }

  /**
   * Consumers never pass the published tickets, of which there is at most one more than the
   * producer index says; they pass that index only in the window before it is advanced.
   */
  lemma EarlyPublish(s: State)
    requires Reachable(s)
    ensures s.c.tail <= PublishedCount(s) <= s.head + 1
    ensures forall k: nat :: Published(s.c, k) <==> k < PublishedCount(s)
    ensures s.c.tail > s.head ==> s.prod.ProdAdvance? && s.c.tail == s.head + 1
    ensures |s.c.items| <= s.c.tail + s.c.cap
  {
    ReachableInv(s);
    if s.c.tail > 0 {
      assert Published(s.c, s.c.tail - 1);
    }
    if |s.c.items| > s.c.cap {
      assert Released(s.c, |s.c.items| - 1 - s.c.cap);
    }
  }

  /** Early publication included, each ticket is returned at most once and with its own item. */
  lemma ExactlyOnce(s: State, k: nat)
    requires Reachable(s) && k < |s.c.items|
    ensures k in s.c.delivered ==> k < s.c.tail && k !in s.c.taken && s.c.delivered[k] == s.c.items[k]
    ensures k < s.c.tail ==> k in s.c.taken || k in s.c.delivered
    ensures s.c.tail <= k < PublishedCount(s) ==> s.c.slots[Idx(k, s.c.cap)].item == s.c.items[k]
    ensures forall t: nat | t < |s.c.pops| && s.c.pops[t].PopRelease? && s.c.pops[t].tail == k ::
              k !in s.c.delivered && s.c.pops[t].item == s.c.items[k]
  {
    ReachableInv(s);
    forall t: nat | t < |s.c.pops| && s.c.pops[t].PopRelease? && s.c.pops[t].tail == k
      ensures k !in s.c.delivered && s.c.pops[t].item == s.c.items[k]
    {
      assert PopOk(s.c, t);
    }
  }

  /** With no pop in flight the items returned are, in ticket order, the first items pushed. */
  lemma QuiescentFifo(s: State)
    requires Reachable(s) && NoPopInFlight(s)
    ensures s.c.tail <= |s.c.items|
    ensures forall k: nat :: k in s.c.delivered <==> k < s.c.tail
    ensures seq(s.c.tail, k requires 0 <= k < s.c.tail => s.c.delivered[k]) == s.c.items[..s.c.tail]
  {
    ReachableInv(s);
    EarlyPublish(s);
    NothingTaken(s);
  }

  lemma NothingTaken(s: State)
    requires Inv(s) && NoPopInFlight(s)
    ensures forall k: nat :: Released(s.c, k) <==> k < s.c.tail
  {
    forall k: nat ensures k !in s.c.taken {
    }
  }

  /**
   * The producer's turn check fails exactly when the ticket a lap behind is not yet
   * returned; with no pop in flight, exactly when every slot is filled.
   */
  lemma PushRefusalIff(s: State, item: u64)
    requires Reachable(s) && s.prod.ProdCheck?
    ensures ProdStep(s, item).prod == ProdReturned(false)
      <==> s.head >= s.c.cap && s.head - s.c.cap !in s.c.delivered
    ensures NoPopInFlight(s) ==>
      (ProdStep(s, item).prod == ProdReturned(false) <==> s.head == s.c.tail + s.c.cap)
  {
    ReachableInv(s);
    CheckOfReleased(s);
    EarlyPublish(s);
    if NoPopInFlight(s) {
      NothingTaken(s);
    }
  }

  /** A pop passes its turn check at the consumer index exactly when that ticket is published. */
  lemma PopCheckIff(s: State)
    requires Reachable(s)
    ensures PopCheckPasses(s.c.slots, s.c.cap, s.c.tail) <==> s.c.tail < PublishedCount(s)
  {
    ReachableInv(s);
    EarlyPublish(s);
    var k := s.c.tail;
    TurnFits(k, s.c.cap);
    assert !Released(s.c, k);
    assert Published(s.c, k) <==> k < PublishedCount(s);
  }

  // ---- what a refused pop tells -------------------------------------------------------

  lemma {:induction false} RunJoin(s: State, a: seq<Move>, b: seq<Move>)
    requires Shape(s.c)
    ensures Run(s, a + b) == Run(Run(s, a), b)
    decreases |b|
  {
    hide Step;
    if b == [] {
      assert a + b == a;
    } else {
      var n := |b| - 1;
      RunJoin(s, a, b[..n]);
      assert (a + b)[..|a| + n] == a + b[..n];
    }
  }

  /** The consumer index only grows. */
  lemma {:induction false} TailGrows(s: State, schedule: seq<Move>)
    requires Inv(s) && |Run(s, schedule).c.items| <= MAX_TICKETS
    ensures s.c.tail <= Run(s, schedule).c.tail
    decreases |schedule|
  {
    if schedule != [] {
      var n := |schedule| - 1;
      TailGrows(s, schedule[..n]);
      RunInv(s, schedule[..n]);
      TailStep(Run(s, schedule[..n]), schedule[n]);
    }
  }

  lemma TailStep(s: State, m: Move)
    requires Inv(s) && |s.c.items| <= MAX_TICKETS
    ensures s.c.tail <= Step(s, m).c.tail
  {
    hide SlotsInv, TakenInv, DeliveredInv, PopOk, ProdOk;
    match m
    case ProdMove(_) =>
    case PopMove(t, spurious) =>
      if t < |s.c.pops| { PopStepFrame(s.c, t, spurious); }
  }

  /** A pop is at its second load because of the last move, a failed turn check, or was there before. */
  lemma SecondLoad(s: State, m: Move, t: nat)
    requires Shape(s.c) && t < |s.c.pops| && Step(s, m).c.pops[t].PopRecheck?
    ensures var pc := Step(s, m).c.pops[t];
      s.c.pops[t] == pc || (s.c.pops[t] == PopCheck(pc.tail) && !PopCheckPasses(s.c.slots, s.c.cap, pc.tail))
  {
    hide Idx, Turn, PushCheckPasses, PopCheckPasses;
  }

  /** A pop at its second load has waited there since a failed turn check. */
  lemma {:induction false} FailedPopCheck(s: State, schedule: seq<Move>, t: nat) returns (n: nat)
    requires Shape(s.c) && t < |s.c.pops| && !s.c.pops[t].PopRecheck?
    requires Run(s, schedule).c.pops[t].PopRecheck?
    ensures n < |schedule|
    ensures var check, pc := Run(s, schedule[..n]), Run(s, schedule).c.pops[t];
            check.c.pops[t] == PopCheck(pc.tail) && !PopCheckPasses(check.c.slots, check.c.cap, pc.tail)
    ensures forall m | n < m <= |schedule| :: Run(s, schedule[..m]).c.pops[t] == Run(s, schedule).c.pops[t]
    decreases |schedule|
  {
    hide Step, PopCheckPasses;
    n := |schedule| - 1;
    SecondLoad(Run(s, schedule[..n]), schedule[n], t);
    if Run(s, schedule[..n]).c.pops[t].PopRecheck? {
      var last := n;
      n := FailedPopCheck(s, schedule[..last], t);
      forall m | n <= m <= last ensures schedule[..last][..m] == schedule[..m] {
      }
    }
    assert schedule[..|schedule|] == schedule;
  }

  /** The only access after which a pop returns false. */
  lemma Refuses(c: Consumers, t: nat, spurious: bool)
    requires Shape(c) && t < |c.pops| && PopStep(c, t, spurious).pops[t] == PopReturned(None)
    ensures c.pops[t].PopRecheck? && c.tail == c.pops[t].tail
  {
    hide Idx, Turn, PopCheckPasses;
  }

  /** A failed turn check at an index that does not move before the second load. */
  lemma PopRefusalIsTruthful(check: State, s: State, later: seq<Move>, t: nat)
    requires Reachable(check) && s == Run(check, later) && |s.c.items| <= MAX_TICKETS
    requires t < |check.c.pops| && check.c.pops[t].PopCheck?
    requires var k := check.c.pops[t].tail;
             !PopCheckPasses(check.c.slots, check.c.cap, k) && s.c.tail == k
    ensures check.c.tail == s.c.tail == PublishedCount(check)
  {
    hide Idx, Turn, PopCheckPasses, Run;
    ReachableInv(check);
    TailGrows(check, later);
    assert PopOk(check.c, t);
    PopCheckIff(check);
    EarlyPublish(check);
  }

  lemma Prefix(cap: nat, poppers: nat, schedule: seq<Move>, n: nat)
    requires cap >= 2 && n <= |schedule|
    requires |Run(Init(cap, poppers), schedule).c.items| <= MAX_TICKETS
    ensures var s0 := Init(cap, poppers);
            && Reachable(Run(s0, schedule[..n]))
            && Run(Run(s0, schedule[..n]), schedule[n..]) == Run(s0, schedule)
  {
    hide Run, Init;
    RunJoin(Init(cap, poppers), schedule[..n], schedule[n..]);
    assert schedule == schedule[..n] + schedule[n..];
  }

  lemma AllOutside(cap: nat, poppers: nat)
    requires cap >= 2
    ensures var c := Init(cap, poppers).c;
            |c.pops| == poppers && forall t | 0 <= t < poppers :: c.pops[t].PopReturned?
  {
  }

  /**
   * Whenever try_pop returns false, that call loaded its turn after `n` moves, at the index it
   * still finds now, and has waited at its second load since. At that turn load every ticket
   * published, even one the producer index does not count yet, had been claimed.
   */
  lemma PopRefused(cap: nat, poppers: nat, schedule: seq<Move>, t: nat, spurious: bool) returns (n: nat)
    requires cap >= 2 && t < poppers
    requires var s := Run(Init(cap, poppers), schedule);
             |s.c.items| <= MAX_TICKETS && PopStep(s.c, t, spurious).pops[t] == PopReturned(None)
    ensures n < |schedule|
    ensures var check, s := Run(Init(cap, poppers), schedule[..n]), Run(Init(cap, poppers), schedule);
            && s.c.pops[t].PopRecheck? && check.c.pops[t] == PopCheck(s.c.pops[t].tail)
            && check.c.tail == s.c.tail == s.c.pops[t].tail == PublishedCount(check)
    ensures forall m | n < m <= |schedule| ::
              Run(Init(cap, poppers), schedule[..m]).c.pops[t] == Run(Init(cap, poppers), schedule).c.pops[t]
  {
    hide *;
    var s0 := Init(cap, poppers);
    AllOutside(cap, poppers);
    Refuses(Run(s0, schedule).c, t, spurious);
    n := FailedPopCheck(s0, schedule, t);
    Prefix(cap, poppers, schedule, n);
    PopRefusalIsTruthful(Run(s0, schedule[..n]), Run(s0, schedule), schedule[n..], t);
  }
}
