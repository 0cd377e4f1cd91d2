// What a whole call of `try_pop` does, whatever interleaves: the part that the MPMC and the
// SPMC queue have in common.
module PopCalls {
  import opened Tickets
  import opened Wrappers
  import opened TurnConsumer

  /** A pop moves only its own thread on. */
  lemma PopLocal(c: Consumers, t: nat, spurious: bool, u: nat)
    requires Shape(c) && t < |c.pops| && u < |c.pops| && u != t
    ensures PopStep(c, t, spurious).pops[u] == c.pops[u]
  {
    hide Idx, Turn, PopCheckPasses;
  }

  // ---- what a call returned and what it did -------------------------------------------

  /** What is seen from outside of thread t's latest call: the tickets that the consumer index gave away to it. */
  datatype PopLog = NotCalled | Called(claims: seq<nat>)

  /** The log after one move that took `before` to `after`; `own` if it was a move of pop t. */
  function Observe(log: PopLog, before: Consumers, after: Consumers, t: nat, own: bool): PopLog
    requires t < |before.pops|
  {
    var claimed := if after.tail != before.tail then [before.tail] else [];
    if !own then log
    else if before.pops[t].PopReturned? then Called(claimed)
    else if log.Called? then Called(log.claims + claimed)
    else NotCalled
  }

  /** A call that returned an item took one ticket and delivered that ticket's item; one that returned none took none. */
  ghost predicate Answered(c: Consumers, result: Option<u64>, log: PopLog) {
    match result
    case None => log == NotCalled || log == Called([])
    case Some(x) =>
      && log.Called? && |log.claims| == 1
      && log.claims[0] in c.delivered && c.delivered[log.claims[0]] == x
  }

  ghost predicate Tracks(c: Consumers, t: nat, log: PopLog)
    requires t < |c.pops|
  {
    match c.pops[t]
    case PopReturned(result) => Answered(c, result, log)
    case PopRead(k) => log == Called([k])
    case PopRelease(k, _) => log == Called([k])
    case _ => log == Called([])
  }

  lemma TailBound(c: Consumers)
    requires Inv(c)
    ensures c.tail <= |c.items|
  {
    if c.tail > 0 {
      assert Published(c, c.tail - 1);
    }
  }

  lemma OwnMove(c: Consumers, t: nat, spurious: bool, log: PopLog)
    requires Inv(c) && t < |c.pops| && |c.items| <= MAX_TICKETS && Tracks(c, t, log)
    ensures Tracks(PopStep(c, t, spurious), t, Observe(log, c, PopStep(c, t, spurious), t, true))
  {
    hide Idx, Turn, SlotsInv, TakenInv, DeliveredInv, PopOk, PopCheckPasses;
    TailBound(c);
  }

  lemma OtherMove(c: Consumers, t: nat, spurious: bool, u: nat, log: PopLog)
    requires Inv(c) && t < |c.pops| && u < |c.pops| && u != t && |c.items| <= MAX_TICKETS && Tracks(c, u, log)
    ensures Tracks(PopStep(c, t, spurious), u, log)
  {
    assert Shape(c);
    hide Idx, Turn, Inv, PopStep;
    PopLocal(c, t, spurious, u);
    PopStepFrame(c, t, spurious);
  }

  /** Ticket k was delivered by the move from c to c', with its own item. */
  ghost predicate Delivers(c: Consumers, c': Consumers, k: nat) {
    && k < |c.items| && k !in c.delivered
    && c'.delivered == c.delivered[k := c.items[k]]
  }

  /**
   * A pop returns an item exactly by the move that delivers it, and returns none only by a
   * move that changes nothing else.
   */
  lemma PopReturns(c: Consumers, t: nat, spurious: bool)
    requires Inv(c) && t < |c.pops| && |c.items| <= MAX_TICKETS && !c.pops[t].PopReturned?
    ensures var c' := PopStep(c, t, spurious);
      match c'.pops[t] {
        case PopReturned(Some(x)) => exists k: nat :: Delivers(c, c', k) && x == c.items[k]
        case PopReturned(None) => c' == c.(pops := c.pops[t := PopReturned(None)])
        case _ => c'.delivered == c.delivered
      }
  {
    hide Idx, Turn, PopCheckPasses;
    assert PopOk(c, t);
    if c.pops[t].PopRelease? {
      var k := c.pops[t].tail;
      assert !Released(c, k);
      assert Delivers(c, PopStep(c, t, spurious), k);
    }
  }

  // ---- a call that runs alone ---------------------------------------------------------

  /** n moves of pop t with nothing else moving and no spurious failure. */
  function Alone(c: Consumers, t: nat, n: nat): (c': Consumers)
    requires Shape(c) && t < |c.pops|
    ensures Shape(c') && c'.cap == c.cap && c'.items == c.items && |c'.pops| == |c.pops|
    decreases n
  {
    if n == 0 then c else Alone(PopStep(c, t, false), t, n - 1)
  }

  /** How many moves of its own a pop is at most from its return. */
  function Rank(c: Consumers, t: nat): nat
    requires t < |c.pops|
  {
    match c.pops[t]
    case PopReturned(_) => 0
    case PopLoad => 5
    case PopCheck(k) => if k == c.tail then 4 else 6
    case PopCas(k) => if k == c.tail then 3 else 5
    case PopRead(_) => 2
    case PopRelease(_, _) => 1
    case PopRecheck(k) => if k == c.tail then 1 else 5
  }

  /** From anywhere inside a call a pop that runs alone returns, within six moves. */
  lemma {:induction false} PopFinishes(c: Consumers, t: nat) returns (n: nat)
    requires Shape(c) && t < |c.pops|
    ensures n <= Rank(c, t) <= 6 && Alone(c, t, n).pops[t].PopReturned?
    decreases Rank(c, t)
  {
    hide Idx, Turn, PopCheckPasses;
    if c.pops[t].PopReturned? {
      n := 0;
    } else {
      n := PopFinishes(PopStep(c, t, false), t);
      n := n + 1;
    }
  }

  /** The consumers after one whole pop of the ticket at the consumer index. */
  function Popped(c: Consumers, t: nat): Consumers
    requires Shape(c) && t < |c.pops| && c.tail < |c.items|
  {
    var i := Idx(c.tail, c.cap);
    c.(tail := c.tail + 1,
       slots := c.slots[i := c.slots[i].(turn := 2 * Turn(c.tail, c.cap) + 2)],
       pops := c.pops[t := PopReturned(Some(c.items[c.tail]))],
       delivered := c.delivered[c.tail := c.items[c.tail]])
  }

  /**
   * A call that runs alone pops the next ticket if that is published, and otherwise returns
   * none and changes nothing.
   */
  lemma PopAlone(c: Consumers, t: nat)
    requires Inv(c) && t < |c.pops| && |c.items| <= MAX_TICKETS && c.pops[t].PopReturned?
    ensures Published(c, c.tail) ==> c.tail < |c.items| && Alone(c, t, 6) == Popped(c, t)
    ensures !Published(c, c.tail) ==> Alone(c, t, 4) == c.(pops := c.pops[t := PopReturned(None)])
  {
    CheckHere(c);
    AtSame(c, t);
    var pc := if Published(c, c.tail) then PopCas(c.tail) else PopRecheck(c.tail);
    var c1, c2, c3 := At(c, t, PopLoad), At(c, t, PopCheck(c.tail)), At(c, t, pc);
    Enter(c, t, c.pops[t].result);
    if Published(c, c.tail) {
      TakeOne(c, t);
      var d := c.(tail := c.tail + 1, taken := c.taken[c.tail := t]);
      Unfold(c, t, [c1, c2, c3, At(d, t, PopRead(c.tail)), At(d, t, PopRelease(c.tail, c.items[c.tail])), Popped(c, t)]);
    } else {
      Refuse(c, t);
      Unfold(c, t, [c1, c2, c3, At(c, t, PopReturned(None))]);
    }
  }

  /** Thread t is at pc, all else being as in c. */
  function At(c: Consumers, t: nat, pc: PopPc): Consumers
    requires t < |c.pops|
  {
    c.(pops := c.pops[t := pc])
  }

  lemma AtSame(c: Consumers, t: nat)
    requires t < |c.pops|
    ensures At(c, t, c.pops[t]) == c
    ensures forall pc: PopPc, pc': PopPc :: At(At(c, t, pc), t, pc') == At(c, t, pc')
  {
    forall pc: PopPc, pc': PopPc ensures At(At(c, t, pc), t, pc') == At(c, t, pc') {
      assert c.pops[t := pc][t := pc'] == c.pops[t := pc'];
    }
  }

  /** The first three moves of a call that runs alone. */
  lemma Enter(c: Consumers, t: nat, result: Option<u64>)
    requires Shape(c) && t < |c.pops|
    ensures PopStep(At(c, t, PopReturned(result)), t, false) == At(c, t, PopLoad)
    ensures PopStep(At(c, t, PopLoad), t, false) == At(c, t, PopCheck(c.tail))
    ensures PopStep(At(c, t, PopCheck(c.tail)), t, false)
         == At(c, t, if PopCheckPasses(c.slots, c.cap, c.tail) then PopCas(c.tail) else PopRecheck(c.tail))
  {
    hide Idx, Turn, PopCheckPasses;
    AtSame(c, t);
  }

  lemma Refuse(c: Consumers, t: nat)
    requires Shape(c) && t < |c.pops|
    ensures PopStep(At(c, t, PopRecheck(c.tail)), t, false) == At(c, t, PopReturned(None))
  {
    hide Idx, Turn;
    AtSame(c, t);
  }

  /** The last three moves of a call that runs alone and finds its ticket published. */
  lemma TakeOne(c: Consumers, t: nat)
    requires Inv(c) && t < |c.pops| && |c.items| <= MAX_TICKETS && Published(c, c.tail) && c.tail < |c.items|
    ensures var k := c.tail;
            var d := c.(tail := k + 1, taken := c.taken[k := t]);
            && PopStep(At(c, t, PopCas(k)), t, false) == At(d, t, PopRead(k))
            && PopStep(At(d, t, PopRead(k)), t, false) == At(d, t, PopRelease(k, c.items[k]))
            && PopStep(At(d, t, PopRelease(k, c.items[k])), t, false) == Popped(c, t)
  {
    CheckHere(c);
    assert c.tail !in c.taken;
    hide Idx, Turn, Inv, Published;
    var d := c.(tail := c.tail + 1, taken := c.taken[c.tail := t]);
    AtSame(c, t);
    AtSame(d, t);
    assert c.taken[c.tail := t] - {c.tail} == c.taken;
  }

  lemma {:induction false} Unfold(c: Consumers, t: nat, path: seq<Consumers>)
    requires Shape(c) && t < |c.pops| && path != []
    requires path[0] == PopStep(c, t, false)
    requires forall i | 0 <= i < |path| :: Shape(path[i]) && t < |path[i].pops|
    requires forall i | 0 <= i < |path| - 1 :: path[i + 1] == PopStep(path[i], t, false)
    ensures Alone(c, t, |path|) == path[|path| - 1]
    decreases |path|
  {
    hide PopStep;
    if |path| == 1 {
      assert Alone(path[0], t, 0) == path[0];
    } else {
      Unfold(path[0], t, path[1..]);
    }
  }

  /** What the turn check finds at the consumer index, and what the slot holds. */
  lemma CheckHere(c: Consumers)
    requires Inv(c) && |c.items| <= MAX_TICKETS
    ensures PopCheckPasses(c.slots, c.cap, c.tail) <==> Published(c, c.tail)
    ensures c.tail <= |c.items| && (Published(c, c.tail) ==> c.tail < |c.items|)
    ensures Published(c, c.tail) ==> c.slots[Idx(c.tail, c.cap)].item == c.items[c.tail]
    ensures U32(U32(Turn(c.tail, c.cap) * 2 + 1) + 1) == 2 * Turn(c.tail, c.cap) + 2 || !Published(c, c.tail)
  {
    TailBound(c);
    TurnFits(c.tail, c.cap);
    assert !Released(c, c.tail);
  }
}
