// What whole calls of the single-producer multi-consumer queue do.
module SpmcCalls {
  import opened Tickets
  import opened Wrappers
  import opened TurnConsumer
  import opened SpmcProtocol
  import P = PopCalls

  /** A move moves only its own thread on. */
  lemma MoveLocal(s: State, m: Move)
    requires Shape(s.c)
    ensures var s' := Step(s, m);
      && (m.PopMove? ==> s'.prod == s.prod && s'.head == s.head)
      && (forall u | 0 <= u < |s.c.pops| && !(m.PopMove? && m.t == u) :: s'.c.pops[u] == s.c.pops[u])
  {
    hide Idx, Turn, PushCheckPasses, PopCheckPasses;
  }

  // ---- what a push was given, did and returned ----------------------------------------

  /** What is seen from outside of the latest push: its item, and the values of the producer index it counted past. */
  datatype PushLog = NotCalled | Called(item: u64, claims: seq<nat>)

  function Observe(log: PushLog, before: State, after: State, m: Move): PushLog {
    var claimed := if after.head != before.head then [before.head] else [];
    if !m.ProdMove? then log
    else if before.prod.ProdReturned? then Called(m.item, claimed)
    else if log.Called? then Called(log.item, log.claims + claimed)
    else NotCalled
  }

  function PushLogOf(s: State, schedule: seq<Move>): PushLog
    requires Shape(s.c)
    decreases |schedule|
  {
    if schedule == [] then NotCalled
    else
      var n := |schedule| - 1;
      var before := Run(s, schedule[..n]);
      Observe(PushLogOf(s, schedule[..n]), before, Step(before, schedule[n]), schedule[n])
  }

  function PopLogOf(s: State, schedule: seq<Move>, t: nat): P.PopLog
    requires Shape(s.c) && t < |s.c.pops|
    decreases |schedule|
  {
    if schedule == [] then P.NotCalled
    else
      var n := |schedule| - 1;
      var before := Run(s, schedule[..n]);
      P.Observe(PopLogOf(s, schedule[..n], t), before.c, Step(before, schedule[n]).c, t,
                schedule[n].PopMove? && schedule[n].t == t)
  }

  ghost predicate Tracks(s: State, log: PushLog) {
    match s.prod
    case ProdReturned(ok) =>
      if ok then
        && log.Called? && |log.claims| == 1
        && var h := log.claims[0];
           h < s.head && h < |s.c.items| && s.c.items[h] == log.item
      else log.Called? ==> log.claims == []
    case ProdAdvance(h) =>
      log.Called? && log.claims == [] && h == s.head && h < |s.c.items| && s.c.items[h] == log.item
    case pc => log == Called(pc.item, [])
  }

  lemma MoveTracks(s: State, m: Move, log: PushLog)
    requires SpmcProtocol.Inv(s) && Tracks(s, log) && |Step(s, m).c.items| <= MAX_TICKETS
    ensures Tracks(Step(s, m), Observe(log, s, Step(s, m), m))
  {
    assert Shape(s.c) && ProdOk(s);
    hide Idx, Turn, TurnConsumer.Inv, PushCheckPasses, PopCheckPasses, Published, Released;
    if m.PopMove? {
      MoveLocal(s, m);
      assert s.c.items <= Step(s, m).c.items;
    }
  }

  lemma {:induction false} PushTracks(s: State, schedule: seq<Move>)
    requires SpmcProtocol.Inv(s) && s.prod == ProdReturned(false) && |Run(s, schedule).c.items| <= MAX_TICKETS
    ensures Tracks(Run(s, schedule), PushLogOf(s, schedule))
    decreases |schedule|
  {
    if schedule != [] {
      assert Shape(s.c);
      hide SpmcProtocol.Inv, Tracks, Observe, Step;
      var n := |schedule| - 1;
      PushTracks(s, schedule[..n]);
      RunInv(s, schedule[..n]);
      MoveTracks(Run(s, schedule[..n]), schedule[n], PushLogOf(s, schedule[..n]));
    }
  }

  /**
   * In every run: a push that returned true counted the producer index past exactly one
   * ticket in that call, which is published and has the item that the call was given; one
   * that returned false counted past none.
   */
  lemma PushCall(cap: nat, poppers: nat, schedule: seq<Move>)
    requires cap >= 2 && |Run(Init(cap, poppers), schedule).c.items| <= MAX_TICKETS
    ensures var s, log := Run(Init(cap, poppers), schedule), PushLogOf(Init(cap, poppers), schedule);
      s.prod.ProdReturned? && log.Called? ==>
        && (s.prod.ok <==> |log.claims| == 1) && (!s.prod.ok <==> log.claims == [])
        && (s.prod.ok ==>
              var h := log.claims[0];
              h < |s.c.items| && s.c.items[h] == log.item && Published(s.c, h))
  {
    var s0 := Init(cap, poppers);
    InitInv(cap, poppers);
    hide Run, PushLogOf;
    PushTracks(s0, schedule);
    RunInv(s0, schedule);
  }

  lemma {:induction false} PopTracks(s: State, schedule: seq<Move>, t: nat)
    requires SpmcProtocol.Inv(s) && t < |s.c.pops| && s.c.pops[t] == PopReturned(None)
    requires |Run(s, schedule).c.items| <= MAX_TICKETS
    ensures P.Tracks(Run(s, schedule).c, t, PopLogOf(s, schedule, t))
    decreases |schedule|
  {
    if schedule != [] {
      assert Shape(s.c);
      hide TurnConsumer.Inv, P.Tracks, P.Observe, ProdStep, PopStep;
      var n := |schedule| - 1;
      var before, m, log := Run(s, schedule[..n]), schedule[n], PopLogOf(s, schedule[..n], t);
      PopTracks(s, schedule[..n], t);
      RunInv(s, schedule[..n]);
      if m.PopMove? && m.t < |s.c.pops| {
        if m.t == t {
          P.OwnMove(before.c, t, m.spurious, log);
        } else {
          P.OtherMove(before.c, m.t, m.spurious, t, log);
        }
      } else {
        PushLeavesPops(before, m, t, log);
      }
    }
  }

  lemma PushLeavesPops(s: State, m: Move, t: nat, log: P.PopLog)
    requires Shape(s.c) && t < |s.c.pops| && P.Tracks(s.c, t, log)
    requires m.ProdMove? || m.t >= |s.c.pops|
    ensures P.Tracks(Step(s, m).c, t, log)
  {
    hide Idx, Turn, PushCheckPasses;
  }

  /**
   * In every run: a pop that returned an item took exactly one ticket in that call and
   * delivered it, and the item is that of the ticket's push; one that returned none took none.
   */
  lemma PopCall(cap: nat, poppers: nat, schedule: seq<Move>, t: nat)
    requires cap >= 2 && t < poppers
    requires |Run(Init(cap, poppers), schedule).c.items| <= MAX_TICKETS
    ensures var s, log := Run(Init(cap, poppers), schedule), PopLogOf(Init(cap, poppers), schedule, t);
      s.c.pops[t].PopReturned? && log.Called? ==>
        match s.c.pops[t].result {
          case None => log.claims == []
          case Some(x) => |log.claims| == 1 && var k := log.claims[0];
            k < |s.c.items| && k in s.c.delivered && s.c.delivered[k] == s.c.items[k] == x
        }
  {
    var s0 := Init(cap, poppers);
    InitInv(cap, poppers);
    AllOutside(cap, poppers);
    assert s0.c.pops[t] == PopReturned(None);
    hide Run, Init, PopLogOf;
    PopTracks(s0, schedule, t);
    RunInv(s0, schedule);
  }

  /** A pop returns an item exactly by the move that delivers it, and none only by a move that changes nothing else. */
  lemma PopAnswers(s: State, t: nat, spurious: bool)
    requires Reachable(s) && t < |s.c.pops| && !s.c.pops[t].PopReturned?
    ensures var s' := Step(s, PopMove(t, spurious));
      match s'.c.pops[t] {
        case PopReturned(Some(x)) => exists k: nat :: P.Delivers(s.c, s'.c, k) && x == s.c.items[k]
        case PopReturned(None) => s' == s.(c := s.c.(pops := s.c.pops[t := PopReturned(None)]))
        case _ => s'.c.delivered == s.c.delivered
      }
  {
    ReachableInv(s);
    hide SpmcProtocol.Inv, PopStep, P.Delivers;
    P.PopReturns(s.c, t, spurious);
  }

  // ---- calls that run alone -----------------------------------------------------------

  function Times(m: Move, n: nat): seq<Move> {
    seq(n, _ => m)
  }

  lemma RunCons(s: State, m: Move, n: nat)
    requires Shape(s.c) && n > 0
    ensures Run(s, Times(m, n)) == Run(Step(s, m), Times(m, n - 1))
  {
    hide Step;
    var rest := Times(m, n - 1);
    assert Times(m, n) == [m] + rest;
    RunJoin(s, [m], rest);
    assert [m][..0] == [];
    assert Run(s, [m]) == Step(Run(s, []), m);
  }

  /** n moves of pop t on the whole queue are its moves on the consumers' part. */
  lemma {:induction false} RunPopAlone(s: State, t: nat, n: nat)
    requires Shape(s.c) && t < |s.c.pops|
    ensures Run(s, Times(PopMove(t, false), n)) == s.(c := P.Alone(s.c, t, n))
    decreases n
  {
    if n > 0 {
      hide PopStep;
      var m := PopMove(t, false);
      RunPopAlone(Step(s, m), t, n - 1);
      RunCons(s, m, n);
    }
  }

  /** From anywhere inside a call a pop that runs alone returns, within six moves. */
  lemma PopFinishes(s: State, t: nat) returns (n: nat)
    requires Shape(s.c) && t < |s.c.pops|
    ensures n <= 6 && Run(s, Times(PopMove(t, false), n)).c.pops[t].PopReturned?
  {
    n := P.PopFinishes(s.c, t);
    RunPopAlone(s, t, n);
  }

  /** A pop that runs alone returns the oldest item if its ticket is published, and else none. */
  lemma PopAlone(s: State, t: nat)
    requires Reachable(s) && t < |s.c.pops| && s.c.pops[t].PopReturned?
    ensures s.c.tail < PublishedCount(s) ==>
      s.c.tail < |s.c.items| && Run(s, Times(PopMove(t, false), 6)) == s.(c := P.Popped(s.c, t))
    ensures s.c.tail >= PublishedCount(s) ==>
      Run(s, Times(PopMove(t, false), 4)) == s.(c := s.c.(pops := s.c.pops[t := PopReturned(None)]))
  {
    ReachableInv(s);
    P.CheckHere(s.c);
    P.PopAlone(s.c, t);
    RunPopAlone(s, t, 6);
    RunPopAlone(s, t, 4);
    hide TurnConsumer.Inv, Run, P.Alone;
  }

  /** How many moves the producer is at most from its return. */
  function PushRank(s: State): nat {
    match s.prod
    case ProdReturned(_) => 0
    case ProdLoad(_) => 5
    case ProdCheck(_, _) => 4
    case ProdWrite(_, _) => 3
    case ProdPublish(_, _) => 2
    case ProdAdvance(_) => 1
  }

  /** From anywhere inside a call the producer returns within five moves, whatever the consumers do. */
  lemma MoveRanks(s: State, m: Move)
    requires Shape(s.c)
    ensures m.PopMove? ==> PushRank(Step(s, m)) == PushRank(s)
    ensures m.ProdMove? && !s.prod.ProdReturned? ==> PushRank(Step(s, m)) < PushRank(s) <= 5
    ensures m.ProdMove? && s.prod.ProdReturned? ==> PushRank(Step(s, m)) == 5
    ensures PushRank(s) == 0 <==> s.prod.ProdReturned?
  {
    hide Idx, Turn, PushCheckPasses;
    MoveLocal(s, m);
  }

  /** The queue after one whole push. */
  function Pushed(s: State, x: u64): State
    requires Shape(s.c)
  {
    var c, h := s.c, s.head;
    s.(head := h + 1, prod := ProdReturned(true),
       c := c.(items := c.items + [x], slots := c.slots[Idx(h, c.cap) := Slot(2 * Turn(h, c.cap) + 1, x)]))
  }

  /**
   * A push that runs alone appends its item if the ticket a lap behind was returned, and
   * otherwise refuses and changes nothing.
   */
  lemma PushAlone(s: State, x: u64)
    requires Reachable(s) && |s.c.items| < MAX_TICKETS && s.prod.ProdReturned?
    ensures if s.head >= s.c.cap ==> s.head - s.c.cap in s.c.delivered
      then Run(s, Times(ProdMove(x), 6)) == Pushed(s, x)
      else Run(s, Times(ProdMove(x), 3)) == s.(prod := ProdReturned(false))
  {
    ReachableInv(s);
    CheckOfReleased(s);
    assert s.head >= s.c.cap ==> (s.head - s.c.cap in s.c.delivered <==> Released(s.c, s.head - s.c.cap));
    assert s.head == |s.c.items|;
    TurnFits(s.head, s.c.cap);
    hide *;
    if PushCheckPasses(s.c.slots, s.c.cap, s.head) {
      PutOne(s, x);
      EnterAlone(s, x, 4);
    } else {
      EnterAlone(s, x, 1);
      RefuseOne(s, x);
    }
  }

  lemma EnterAlone(s: State, x: u64, n: nat)
    requires Shape(s.c) && s.prod.ProdReturned?
    ensures Run(s, Times(ProdMove(x), n + 2)) == Run(s.(prod := ProdCheck(x, s.head)), Times(ProdMove(x), n))
  {
    hide Run, Times;
    var m := ProdMove(x);
    Next(s, m, s.(prod := ProdLoad(x)), n + 1);
    Next(s.(prod := ProdLoad(x)), m, s.(prod := ProdCheck(x, s.head)), n);
  }

  lemma RefuseOne(s: State, x: u64)
    requires Shape(s.c) && !PushCheckPasses(s.c.slots, s.c.cap, s.head)
    ensures Run(s.(prod := ProdCheck(x, s.head)), Times(ProdMove(x), 1)) == s.(prod := ProdReturned(false))
  {
    hide Run, Times, PushCheckPasses;
    Next(s.(prod := ProdCheck(x, s.head)), ProdMove(x), s.(prod := ProdReturned(false)), 0);
    Done(s.(prod := ProdReturned(false)), ProdMove(x));
  }

  /** The last four moves of a push that runs alone and finds room. */
  lemma PutOne(s: State, x: u64)
    requires Shape(s.c) && s.head == |s.c.items| < MAX_TICKETS && PushCheckPasses(s.c.slots, s.c.cap, s.head)
    requires 2 * Turn(s.head, s.c.cap) + 1 < U32_LIMIT
    ensures Run(s.(prod := ProdCheck(x, s.head)), Times(ProdMove(x), 4)) == Pushed(s, x)
  {
    hide Idx, Turn, Run, Times, PushCheckPasses;
    var m, h, i := ProdMove(x), s.head, Idx(s.head, s.c.cap);
    var written := s.(c := s.c.(slots := s.c.slots[i := s.c.slots[i].(item := x)], items := s.c.items + [x]));
    Next(s.(prod := ProdCheck(x, h)), m, s.(prod := ProdWrite(x, h)), 3);
    Next(s.(prod := ProdWrite(x, h)), m, written.(prod := ProdPublish(x, h)), 2);
    var published := Pushed(s, x).(head := h, prod := ProdAdvance(h));
    Next(written.(prod := ProdPublish(x, h)), m, published, 1);
    Next(published, m, Pushed(s, x), 0);
    Done(Pushed(s, x), m);
  }

  /** One move of a run that repeats the move m. */
  lemma Next(s: State, m: Move, s': State, n: nat)
    requires Shape(s.c) && Step(s, m) == s'
    ensures Shape(s'.c) && Run(s, Times(m, n + 1)) == Run(s', Times(m, n))
  {
    hide Step, Run;
    RunCons(s, m, n + 1);
  }

  lemma Done(s: State, m: Move)
    requires Shape(s.c)
    ensures Run(s, Times(m, 0)) == s
  {
    hide Step;
  }
}
