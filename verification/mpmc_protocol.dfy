// The multi-producer multi-consumer queue of c_queue.cpp under arbitrary interleaving:
// `try_push` cut into its atomic accesses, next to the consumers of TurnConsumer.
module MpmcProtocol {
  import opened Tickets
  import opened Wrappers
  import opened TurnConsumer

  /** Where a thread is inside `try_push`; the name says which access comes next. */
  datatype PushPc =
    | PushReturned(ok: bool)              // not inside a call; `ok` is what the last call returned
    | PushLoad(item: u64)                 // load the producer index
    | PushCheck(item: u64, head: nat)     // load the turn of the slot of `head`
    | PushCas(item: u64, head: nat)       // turn matched: compare-exchange the producer index
    | PushWrite(item: u64, head: nat)     // ticket won: write the item
    | PushPublish(item: u64, head: nat)   // store the odd turn, return true
    | PushRecheck(item: u64, head: nat)   // turn did not match: load the producer index again

  /** `filling` is history: the thread that holds each ticket claimed but not yet published. */
  datatype State = State(c: Consumers, head: nat, pushes: seq<PushPc>, filling: map<nat, nat>)

  /** A scheduler's choice; `item` is used when the push thread starts a call. */
  datatype Move =
    | PushMove(t: nat, item: u64, spurious: bool)
    | PopMove(t: nat, spurious: bool)

  predicate Fills(pc: PushPc, k: nat) {
    (pc.PushWrite? || pc.PushPublish?) && pc.head == k
  }

  /** A queue with m_capacity == cap, as the constructor leaves it. */
  function Init(cap: nat, pushers: nat, poppers: nat): (s: State)
    requires cap >= 2
    ensures Shape(s.c)
  {
    State(Consumers(cap, seq(cap, i => Slot(0, 0)), 0, seq(poppers, i => PopReturned(None)), [], map[], map[]),
          0, seq(pushers, i => PushReturned(false)), map[])
  }

  /** One access of `try_push` by thread t. */
  function PushStep(s: State, t: nat, item: u64, spurious: bool): (s': State)
    requires Shape(s.c) && t < |s.pushes|
    ensures Shape(s'.c) && s'.c.cap == s.c.cap && |s'.pushes| == |s.pushes| && s'.c.pops == s.c.pops
    ensures s.c.items <= s'.c.items
  {
    var c := s.c;
    match s.pushes[t]
    case PushReturned(_) => s.(pushes := s.pushes[t := PushLoad(item)])
    case PushLoad(x) => s.(pushes := s.pushes[t := PushCheck(x, s.head)])
    case PushCheck(x, h) =>
      s.(pushes := s.pushes[t := if PushCheckPasses(c.slots, c.cap, h) then PushCas(x, h) else PushRecheck(x, h)])
    case PushCas(x, h) =>
      if s.head == h && !spurious then
        s.(head := U32(h + 1),
           pushes := s.pushes[t := PushWrite(x, h)],
           filling := s.filling[h := t],
           c := c.(items := c.items + [x]))
      else
        s.(pushes := s.pushes[t := PushCheck(x, s.head)])
    case PushWrite(x, h) =>
      var i := Idx(h, c.cap);
      s.(pushes := s.pushes[t := PushPublish(x, h)],
         c := c.(slots := c.slots[i := c.slots[i].(item := x)]))
    case PushPublish(x, h) =>
      var i := Idx(h, c.cap);
      var turn := U32(U32(Turn(h, c.cap) * 2) + 1);
      s.(pushes := s.pushes[t := PushReturned(true)],
         filling := s.filling - {h},
         c := c.(slots := c.slots[i := c.slots[i].(turn := turn)]))
    case PushRecheck(x, h) =>
      s.(pushes := s.pushes[t := if s.head == h then PushReturned(false) else PushCheck(x, s.head)])
  }

  /** A move of a thread that does not exist changes nothing. */
  function Step(s: State, m: Move): (s': State)
    requires Shape(s.c)
    ensures Shape(s'.c) && s'.c.cap == s.c.cap && s.c.items <= s'.c.items
    ensures |s'.pushes| == |s.pushes| && |s'.c.pops| == |s.c.pops|
  {
    match m
    case PushMove(t, item, spurious) =>
      if t < |s.pushes| then PushStep(s, t, item, spurious) else s
    case PopMove(t, spurious) =>
      if t < |s.c.pops| then s.(c := PopStep(s.c, t, spurious)) else s
  }

  function Run(s: State, schedule: seq<Move>): (s': State)
    requires Shape(s.c)
    ensures Shape(s'.c) && s'.c.cap == s.c.cap && s.c.items <= s'.c.items
    ensures |s'.pushes| == |s.pushes| && |s'.c.pops| == |s.c.pops|
    decreases |schedule|
  {
    if schedule == [] then s
    else
      var n := |schedule| - 1;
      Step(Run(s, schedule[..n]), schedule[n])
  }

  // ---- the invariant ------------------------------------------------------------------

  /** Each ticket claimed and not published is held by exactly one thread. */
  ghost predicate FillingInv(s: State)
    requires Shape(s.c)
  {
    && s.head == |s.c.items|
    && (forall k: nat :: k in s.filling <==> k < s.head && !Published(s.c, k))
    && (forall k: nat :: k in s.filling ==> s.filling[k] < |s.pushes| && Fills(s.pushes[s.filling[k]], k))
  }

  ghost predicate PushOk(s: State, t: nat)
    requires Shape(s.c) && t < |s.pushes|
  {
    match s.pushes[t]
    case PushReturned(_) => true
    case PushLoad(_) => true
    case PushCheck(_, h) => h <= s.head
    case PushRecheck(_, h) => h <= s.head
    case PushCas(_, h) => h <= s.head && (h >= s.c.cap ==> Released(s.c, h - s.c.cap))
    case PushWrite(x, h) => h in s.filling && s.filling[h] == t && h < |s.c.items| && x == s.c.items[h]
    case PushPublish(x, h) =>
      && h in s.filling && s.filling[h] == t && h < |s.c.items| && x == s.c.items[h]
      && s.c.slots[Idx(h, s.c.cap)].item == x
  }

  ghost predicate Inv(s: State) {
    && TurnConsumer.Inv(s.c)
    && FillingInv(s)
    // A ticket is claimed only after the ticket one lap earlier was released.
    && (forall k: nat :: k + s.c.cap < |s.c.items| ==> Released(s.c, k))
    && (forall t: nat :: t < |s.pushes| ==> PushOk(s, t))
  }

  lemma InitInv(cap: nat, pushers: nat, poppers: nat)
    requires cap >= 2
    ensures Inv(Init(cap, pushers, poppers))
  {
  }

  lemma PopKeeps(s: State, t: nat, spurious: bool)
    requires Inv(s) && t < |s.c.pops| && |s.c.items| <= MAX_TICKETS
    ensures Inv(s.(c := PopStep(s.c, t, spurious)))
  {
    PopStepInv(s.c, t, spurious);
    PopStepFrame(s.c, t, spurious);
    var s' := s.(c := PopStep(s.c, t, spurious));
    hide Published, Released, PopStep;
    forall u: nat | u < |s'.pushes| ensures PushOk(s', u) {
      assert PushOk(s, u);
    }
  }

  // ---- a push step keeps the invariant ------------------------------------------------

  /** Moving one push thread on, nothing else changing. */
  lemma MovePc(s: State, t: nat, pc: PushPc)
    requires Inv(s) && t < |s.pushes|
    requires PushOk(s.(pushes := s.pushes[t := pc]), t)
    requires forall k: nat :: Fills(s.pushes[t], k) ==> Fills(pc, k)
    ensures Inv(s.(pushes := s.pushes[t := pc]))
  {
    var s' := s.(pushes := s.pushes[t := pc]);
    hide Published, Released;
    forall u: nat | u < |s'.pushes| ensures PushOk(s', u) {
      assert PushOk(s, u);
    }
  }

  /** The turn check: it passes only if the ticket one lap earlier was released. */
  lemma CheckMatched(s: State, h: nat)
    requires Inv(s) && h <= s.head && |s.c.items| <= MAX_TICKETS
    ensures PushCheckPasses(s.c.slots, s.c.cap, h)
      ==> !Published(s.c, h) && (h >= s.c.cap ==> Released(s.c, h - s.c.cap))
  {
    TurnFits(h, s.c.cap);
    if s.c.slots[Idx(h, s.c.cap)].turn == 2 * Turn(h, s.c.cap) {
      FreeOfTurn(s.c, h);
    }
  }

  lemma LocalPushStep(s: State, t: nat, item: u64, spurious: bool)
    requires Inv(s) && t < |s.pushes| && |s.c.items| <= MAX_TICKETS
    requires !s.pushes[t].PushWrite? && !s.pushes[t].PushPublish?
    requires !(s.pushes[t].PushCas? && s.head == s.pushes[t].head && !spurious)
    ensures Inv(PushStep(s, t, item, spurious))
  {
    hide Idx, Turn;
    var pc := PushStep(s, t, item, spurious).pushes[t];
    assert PushOk(s, t);
    if s.pushes[t].PushCheck? {
      CheckMatched(s, s.pushes[t].head);
    }
    MovePc(s, t, pc);
  }

  /** Winning the compare-exchange claims one fresh ticket. */
  lemma ClaimPushStep(s: State, t: nat, item: u64)
    requires Inv(s) && t < |s.pushes| && |s.c.items| < MAX_TICKETS
    requires s.pushes[t].PushCas? && s.head == s.pushes[t].head
    ensures Inv(PushStep(s, t, item, false))
  {
    var s' := PushStep(s, t, item, false);
    ItemsGrow(s.c, s.pushes[t].item);
    ClaimTickets(s, t, item);
    forall u: nat | u < |s'.pushes| ensures PushOk(s', u) {
      ClaimElsewhere(s, t, item, u);
    }
  }

  lemma ClaimTickets(s: State, t: nat, item: u64)
    requires Inv(s) && t < |s.pushes| && |s.c.items| < MAX_TICKETS
    requires s.pushes[t].PushCas? && s.head == s.pushes[t].head
    ensures var s' := PushStep(s, t, item, false);
            FillingInv(s') && forall k: nat :: k + s'.c.cap < |s'.c.items| ==> Released(s'.c, k)
  {
    var s' := PushStep(s, t, item, false);
    SameSlots(s.c, s'.c);
    hide Published, Released;
    assert PushOk(s, t);
    forall k: nat | k + s.c.cap < |s'.c.items| ensures Released(s'.c, k) {
      if k + s.c.cap == s.head {
        assert Released(s.c, s.head - s.c.cap);
      }
    }
  }

  lemma ClaimElsewhere(s: State, t: nat, item: u64, u: nat)
    requires Inv(s) && t < |s.pushes| && |s.c.items| < MAX_TICKETS && u < |s.pushes|
    requires s.pushes[t].PushCas? && s.head == s.pushes[t].head
    ensures PushOk(PushStep(s, t, item, false), u)
  {
    SameSlots(s.c, PushStep(s, t, item, false).c);
    hide Published, Released;
    assert PushOk(s, u);
  }

  /** Slots that carry the turn of a free ticket hold no item that a pop may still read. */
  lemma WritePushStep(s: State, t: nat, item: u64)
    requires Inv(s) && t < |s.pushes| && |s.c.items| <= MAX_TICKETS
    requires s.pushes[t].PushWrite?
    ensures Inv(PushStep(s, t, item, false))
  {
    var s' := PushStep(s, t, item, false);
    var h := s.pushes[t].head;
    assert PushOk(s, t);
    TurnOfFree(s.c, h);
    WriteFree(s.c, h, s.pushes[t].item);
    forall u: nat | u < |s'.pushes| ensures PushOk(s', u) {
      WriteElsewhere(s, t, item, u);
    }
  }

  lemma WriteElsewhere(s: State, t: nat, item: u64, u: nat)
    requires Inv(s) && t < |s.pushes| && s.pushes[t].PushWrite? && u < |s.pushes|
    requires var s' := PushStep(s, t, item, false);
      forall j: nat :: Published(s'.c, j) == Published(s.c, j) && Released(s'.c, j) == Released(s.c, j)
    ensures PushOk(PushStep(s, t, item, false), u)
  {
    hide Idx, Turn;
    assert PushOk(s, t) && PushOk(s, u);
    if u != t && s.pushes[u].PushPublish? {
      var j, h := s.pushes[u].head, s.pushes[t].head;
      if Idx(j, s.c.cap) == Idx(h, s.c.cap) {
        OwnersOfOneSlot(s, j, h);
      }
    }
  }

  lemma UnpublishedIsRecent(s: State, k: nat)
    requires Inv(s) && k in s.filling
    ensures k < |s.c.items| <= k + s.c.cap
  {
    assert !Published(s.c, k) && !Released(s.c, k);
  }

  /** Two tickets being filled at once never share a slot. */
  lemma OwnersOfOneSlot(s: State, j: nat, k: nat)
    requires Inv(s) && j in s.filling && k in s.filling
    requires Idx(j, s.c.cap) == Idx(k, s.c.cap)
    ensures j == k
  {
    var cap := s.c.cap;
    SameSlot(j, k, cap);
    SameSlot(k, j, cap);
    hide *;
    assert j + cap >= |s.c.items| && k + cap >= |s.c.items| by {
      UnpublishedIsRecent(s, j);
      UnpublishedIsRecent(s, k);
    }
  }

  lemma PublishPushStep(s: State, t: nat, item: u64)
    requires Inv(s) && t < |s.pushes| && |s.c.items| <= MAX_TICKETS
    requires s.pushes[t].PushPublish?
    ensures Inv(PushStep(s, t, item, false))
  {
    hide Idx, Turn;
    var s' := PushStep(s, t, item, false);
    var h := s.pushes[t].head;
    assert PushOk(s, t);
    TurnOfFree(s.c, h);
    TurnFits(h, s.c.cap);
    PublishEffect(s.c, s'.c, h);
    PublishKeeps(s.c, s'.c, h);
    forall u: nat | u < |s'.pushes| ensures PushOk(s', u) {
      assert PushOk(s, u);
    }
  }

  lemma PushKeeps(s: State, t: nat, item: u64, spurious: bool)
    requires Inv(s) && t < |s.pushes|
    requires |PushStep(s, t, item, spurious).c.items| <= MAX_TICKETS
    ensures Inv(PushStep(s, t, item, spurious))
  {
    var pc := s.pushes[t];
    if pc.PushWrite? {
      WritePushStep(s, t, item);
    } else if pc.PushPublish? {
      PublishPushStep(s, t, item);
    } else if pc.PushCas? && s.head == pc.head && !spurious {
      ClaimPushStep(s, t, item);
    } else {
      LocalPushStep(s, t, item, spurious);
    }
  }

  /** Every interleaving of any number of threads, up to the ticket bound, keeps the invariant. */
  lemma {:induction false} RunInv(s: State, schedule: seq<Move>)
    requires Inv(s) && |Run(s, schedule).c.items| <= MAX_TICKETS
    ensures Inv(Run(s, schedule))
    decreases |schedule|
  {
    if schedule != [] {
      var n := |schedule| - 1;
      RunInv(s, schedule[..n]);
      match schedule[n]
      case PushMove(t, item, spurious) =>
        if t < |s.pushes| { PushKeeps(Run(s, schedule[..n]), t, item, spurious); }
      case PopMove(t, spurious) =>
        if t < |s.c.pops| { PopKeeps(Run(s, schedule[..n]), t, spurious); }
    }
  }
}
