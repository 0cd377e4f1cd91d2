// What whole calls of the multi-producer multi-consumer queue do: under any interleaving what
// a call was given, did and returned belong together, and a call that runs alone does
// exactly what it should.
module MpmcCalls {
  import opened Tickets
  import opened Wrappers
  import opened TurnConsumer
  import opened MpmcProtocol
  import opened MpmcTheorems
  import P = PopCalls

  /** A move moves only its own thread on. */
  lemma MoveLocal(s: State, m: Move)
    requires Shape(s.c)
    ensures var s' := Step(s, m);
      && (forall u | 0 <= u < |s.pushes| && !(m.PushMove? && m.t == u) :: s'.pushes[u] == s.pushes[u])
      && (forall u | 0 <= u < |s.c.pops| && !(m.PopMove? && m.t == u) :: s'.c.pops[u] == s.c.pops[u])
  {
    hide Idx, Turn, PushCheckPasses, PopCheckPasses;
  }

  // ---- what a push was given, did and returned ----------------------------------------

  /** What is seen from outside of thread t's latest push: its item, and the tickets the producer index gave to it. */
  datatype PushLog = NotCalled | Called(item: u64, claims: seq<nat>)

  function Observe(log: PushLog, before: State, after: State, t: nat, m: Move): PushLog
    requires t < |before.pushes|
  {
    var claimed := if after.head != before.head then [before.head] else [];
    if !(m.PushMove? && m.t == t) then log
    else if before.pushes[t].PushReturned? then Called(m.item, claimed)
    else if log.Called? then Called(log.item, log.claims + claimed)
    else NotCalled
  }

  function PushLogOf(s: State, schedule: seq<Move>, t: nat): PushLog
    requires Shape(s.c) && t < |s.pushes|
    decreases |schedule|
  {
    if schedule == [] then NotCalled
    else
      var n := |schedule| - 1;
      var before := Run(s, schedule[..n]);
      Observe(PushLogOf(s, schedule[..n], t), before, Step(before, schedule[n]), t, schedule[n])
  }

  function PopLogOf(s: State, schedule: seq<Move>, t: nat): P.PopLog
    requires Shape(s.c) && t < |s.c.pops|
    decreases |schedule|
  {
    if schedule == [] then P.NotCalled
    else
      var n := |schedule| - 1;
      var before := Run(s, schedule[..n]);
      P.Observe(PopLogOf(s, schedule[..n], t), before.c, Step(before, schedule[n]).c, t,
                schedule[n].PopMove? && schedule[n].t == t)
  }

  /** A push that returned true took one ticket, which has its item and is published; one that returned false took none. */
  ghost predicate Answered(s: State, ok: bool, log: PushLog) {
    if ok then
      && log.Called? && |log.claims| == 1
      && var h := log.claims[0];
         h < |s.c.items| && s.c.items[h] == log.item && h !in s.filling
    else log.Called? ==> log.claims == []
  }

  ghost predicate Tracks(s: State, t: nat, log: PushLog)
    requires t < |s.pushes|
  {
    match s.pushes[t]
    case PushReturned(ok) => Answered(s, ok, log)
    case PushWrite(x, h) => log == Called(x, [h])
    case PushPublish(x, h) => log == Called(x, [h])
    case pc => log == Called(pc.item, [])
  }

  lemma OwnMove(s: State, t: nat, item: u64, spurious: bool, log: PushLog)
    requires MpmcProtocol.Inv(s) && t < |s.pushes| && Tracks(s, t, log)
    requires |Step(s, PushMove(t, item, spurious)).c.items| <= MAX_TICKETS
    ensures var m := PushMove(t, item, spurious);
            Tracks(Step(s, m), t, Observe(log, s, Step(s, m), t, m))
  {
    assert PushOk(s, t) && s.head == |s.c.items| && Shape(s.c);
    if s.pushes[t].PushPublish? {
      OwnPublish(s, t, item, spurious, log);
    } else {
      OwnOther(s, t, item, spurious, log);
    }
  }

  lemma OwnPublish(s: State, t: nat, item: u64, spurious: bool, log: PushLog)
    requires Shape(s.c) && t < |s.pushes| && Tracks(s, t, log) && s.pushes[t].PushPublish?
    requires var pc := s.pushes[t]; pc.head < |s.c.items| && s.c.items[pc.head] == pc.item
    ensures var m := PushMove(t, item, spurious);
            Tracks(Step(s, m), t, Observe(log, s, Step(s, m), t, m))
  {
    hide Idx, Turn, U32;
  }

  lemma OwnOther(s: State, t: nat, item: u64, spurious: bool, log: PushLog)
    requires Shape(s.c) && t < |s.pushes| && Tracks(s, t, log) && !s.pushes[t].PushPublish?
    requires s.head == |s.c.items| && |Step(s, PushMove(t, item, spurious)).c.items| <= MAX_TICKETS
    ensures var m := PushMove(t, item, spurious);
            Tracks(Step(s, m), t, Observe(log, s, Step(s, m), t, m))
  {
    hide Idx, Turn, PushCheckPasses;
    if s.pushes[t].PushCas? && s.pushes[t].head == s.head && !spurious {
      assert U32(s.head + 1) == s.head + 1;
    }
  }

  /** Tickets stay published and keep their items. */
  lemma OtherMove(s: State, m: Move, t: nat, log: PushLog)
    requires MpmcProtocol.Inv(s) && t < |s.pushes| && Tracks(s, t, log) && !(m.PushMove? && m.t == t)
    ensures Tracks(Step(s, m), t, log)
  {
    assert Shape(s.c);
    hide Idx, Turn, TurnConsumer.Inv, PushCheckPasses, PopCheckPasses;
    MoveLocal(s, m);
    assert s.c.items <= Step(s, m).c.items;
  }

  lemma {:induction false} PushTracks(s: State, schedule: seq<Move>, t: nat)
    requires MpmcProtocol.Inv(s) && t < |s.pushes| && s.pushes[t] == PushReturned(false)
    requires |Run(s, schedule).c.items| <= MAX_TICKETS
    ensures Tracks(Run(s, schedule), t, PushLogOf(s, schedule, t))
    decreases |schedule|
  {
    if schedule != [] {
      assert Shape(s.c);
      hide MpmcProtocol.Inv, Tracks, Observe, Step;
      var n := |schedule| - 1;
      var before, m := Run(s, schedule[..n]), schedule[n];
      PushTracks(s, schedule[..n], t);
      RunInv(s, schedule[..n]);
      if m.PushMove? && m.t == t {
        OwnMove(before, t, m.item, m.spurious, PushLogOf(s, schedule[..n], t));
      } else {
        OtherMove(before, m, t, PushLogOf(s, schedule[..n], t));
      }
    }
  }

  /**
   * In every run: a push that returned true took exactly one ticket in that call, and that
   * ticket is published and has the item that the call was given; one that returned false
   * took none.
   */
  lemma PushCall(cap: nat, pushers: nat, poppers: nat, schedule: seq<Move>, t: nat)
    requires cap >= 2 && t < pushers
    requires |Run(Init(cap, pushers, poppers), schedule).c.items| <= MAX_TICKETS
    ensures var s, log := Run(Init(cap, pushers, poppers), schedule), PushLogOf(Init(cap, pushers, poppers), schedule, t);
      s.pushes[t].PushReturned? && log.Called? ==>
        && (s.pushes[t].ok <==> |log.claims| == 1) && (!s.pushes[t].ok <==> log.claims == [])
        && (s.pushes[t].ok ==>
              var h := log.claims[0];
              h < |s.c.items| && s.c.items[h] == log.item && Published(s.c, h))
  {
    var s0 := Init(cap, pushers, poppers);
    InitInv(cap, pushers, poppers);
    AllOutside(cap, pushers, poppers);
    assert s0.pushes[t] == PushReturned(false);
    hide Run, Init, PushLogOf;
    PushTracks(s0, schedule, t);
    RunInv(s0, schedule);
  }

  lemma {:induction false} PopTracks(s: State, schedule: seq<Move>, t: nat)
    requires MpmcProtocol.Inv(s) && t < |s.c.pops| && s.c.pops[t] == PopReturned(None)
    requires |Run(s, schedule).c.items| <= MAX_TICKETS
    ensures P.Tracks(Run(s, schedule).c, t, PopLogOf(s, schedule, t))
    decreases |schedule|
  {
    if schedule != [] {
      assert Shape(s.c);
      hide TurnConsumer.Inv, P.Tracks, P.Observe, PushStep, PopStep;
      var n := |schedule| - 1;
      var before, m, log := Run(s, schedule[..n]), schedule[n], PopLogOf(s, schedule[..n], t);
      PopTracks(s, schedule[..n], t);
      RunInv(s, schedule[..n]);
      if m.PopMove? && m.t < |s.c.pops| {
        if m.t == t {
          P.OwnMove(before.c, t, m.spurious, log);
        } else {
          P.OtherMove(before.c, m.t, m.spurious, t, log);
        }
      } else {
        PushLeavesPops(before, m, t, log);
      }
    }
  }

  lemma PushLeavesPops(s: State, m: Move, t: nat, log: P.PopLog)
    requires Shape(s.c) && t < |s.c.pops| && P.Tracks(s.c, t, log)
    requires m.PushMove? || m.t >= |s.c.pops|
    ensures P.Tracks(Step(s, m).c, t, log)
  {
    hide Idx, Turn, PushCheckPasses;
  }

  /**
   * In every run: a pop that returned an item took exactly one ticket in that call and
   * delivered it, and the item is that of the ticket's push; one that returned none took none.
   */
  lemma PopCall(cap: nat, pushers: nat, poppers: nat, schedule: seq<Move>, t: nat)
    requires cap >= 2 && t < poppers
    requires |Run(Init(cap, pushers, poppers), schedule).c.items| <= MAX_TICKETS
    ensures var s, log := Run(Init(cap, pushers, poppers), schedule), PopLogOf(Init(cap, pushers, poppers), schedule, t);
      s.c.pops[t].PopReturned? && log.Called? ==>
        match s.c.pops[t].result {
          case None => log.claims == []
          case Some(x) => |log.claims| == 1 && var k := log.claims[0];
            k < |s.c.items| && k in s.c.delivered && s.c.delivered[k] == s.c.items[k] == x
        }
  {
    var s0 := Init(cap, pushers, poppers);
    InitInv(cap, pushers, poppers);
    AllOutside(cap, pushers, poppers);
    assert s0.c.pops[t] == PopReturned(None);
    hide Run, Init, PopLogOf;
    PopTracks(s0, schedule, t);
    RunInv(s0, schedule);
  }

  /** A pop returns an item exactly by the move that delivers it, and none only by a move that changes nothing else. */
  lemma PopAnswers(s: State, t: nat, spurious: bool)
    requires Reachable(s) && t < |s.c.pops| && !s.c.pops[t].PopReturned?
    ensures var s' := Step(s, PopMove(t, spurious));
      match s'.c.pops[t] {
        case PopReturned(Some(x)) => exists k: nat :: P.Delivers(s.c, s'.c, k) && x == s.c.items[k]
        case PopReturned(None) => s' == s.(c := s.c.(pops := s.c.pops[t := PopReturned(None)]))
        case _ => s'.c.delivered == s.c.delivered
      }
  {
    ReachableInv(s);
    hide MpmcProtocol.Inv, PopStep, P.Delivers;
    P.PopReturns(s.c, t, spurious);
  }

  // ---- calls that run alone -----------------------------------------------------------

  function Times(m: Move, n: nat): seq<Move> {
    seq(n, _ => m)
  }

  /** n moves of pop t on the whole queue are its moves on the consumers' part. */
  lemma {:induction false} RunPopAlone(s: State, t: nat, n: nat)
    requires Shape(s.c) && t < |s.c.pops|
    ensures Run(s, Times(PopMove(t, false), n)) == s.(c := P.Alone(s.c, t, n))
    decreases n
  {
    if n > 0 {
      hide PopStep;
      var m := PopMove(t, false);
      RunPopAlone(Step(s, m), t, n - 1);
      RunCons(s, m, n);
    }
  }

  lemma RunCons(s: State, m: Move, n: nat)
    requires Shape(s.c) && n > 0
    ensures Run(s, Times(m, n)) == Run(Step(s, m), Times(m, n - 1))
  {
    hide Step;
    var rest := Times(m, n - 1);
    assert Times(m, n) == [m] + rest;
    RunJoin(s, [m], rest);
    assert [m][..0] == [];
    assert Run(s, [m]) == Step(Run(s, []), m);
  }

  /** From anywhere inside a call a pop that runs alone returns, within six moves. */
  lemma PopFinishes(s: State, t: nat) returns (n: nat)
    requires Shape(s.c) && t < |s.c.pops|
    ensures n <= 6 && Run(s, Times(PopMove(t, false), n)).c.pops[t].PopReturned?
  {
    n := P.PopFinishes(s.c, t);
    RunPopAlone(s, t, n);
  }

  /** A pop that runs alone returns the oldest item if its ticket is published, and else none. */
  lemma PopAlone(s: State, t: nat)
    requires Reachable(s) && t < |s.c.pops| && s.c.pops[t].PopReturned?
    ensures s.c.tail < s.head && s.c.tail !in s.filling ==>
      s.c.tail < |s.c.items| && Run(s, Times(PopMove(t, false), 6)) == s.(c := P.Popped(s.c, t))
    ensures s.c.tail >= s.head || s.c.tail in s.filling ==>
      Run(s, Times(PopMove(t, false), 4)) == s.(c := s.c.(pops := s.c.pops[t := PopReturned(None)]))
  {
    ReachableInv(s);
    P.CheckHere(s.c);
    P.PopAlone(s.c, t);
    RunPopAlone(s, t, 6);
    RunPopAlone(s, t, 4);
    hide TurnConsumer.Inv, Run, P.Alone;
  }

  /** How many moves of its own a push is at most from its return. */
  function PushRank(s: State, t: nat): nat
    requires t < |s.pushes|
  {
    match s.pushes[t]
    case PushReturned(_) => 0
    case PushLoad(_) => 5
    case PushCheck(_, h) => if h == s.head then 4 else 6
    case PushCas(_, h) => if h == s.head then 3 else 5
    case PushWrite(_, _) => 2
    case PushPublish(_, _) => 1
    case PushRecheck(_, h) => if h == s.head then 1 else 5
  }

  /** From anywhere inside a call a push that runs alone returns, within six moves. */
  lemma {:induction false} PushFinishes(s: State, t: nat, x: u64) returns (n: nat)
    requires Shape(s.c) && t < |s.pushes|
    ensures n <= PushRank(s, t) <= 6
    ensures Run(s, Times(PushMove(t, x, false), n)).pushes[t].PushReturned?
    decreases PushRank(s, t)
  {
    if s.pushes[t].PushReturned? {
      n := 0;
    } else {
      var m := PushMove(t, x, false);
      MoveRanks(s, t, x);
      hide Step, PushRank, Run;
      n := PushFinishes(Step(s, m), t, x);
      n := n + 1;
      RunCons(s, m, n);
    }
  }

  lemma MoveRanks(s: State, t: nat, x: u64)
    requires Shape(s.c) && t < |s.pushes| && !s.pushes[t].PushReturned?
    ensures PushRank(Step(s, PushMove(t, x, false)), t) < PushRank(s, t) <= 6
  {
    hide Idx, Turn, PushCheckPasses;
  }

  /** The queue after one whole push. */
  function Pushed(s: State, t: nat, x: u64): State
    requires Shape(s.c) && t < |s.pushes|
  {
    var c, h := s.c, s.head;
    s.(head := h + 1, pushes := s.pushes[t := PushReturned(true)],
       c := c.(items := c.items + [x], slots := c.slots[Idx(h, c.cap) := Slot(2 * Turn(h, c.cap) + 1, x)]))
  }

  /**
   * A push that runs alone appends its item if the ticket a lap behind was returned, and
   * otherwise refuses and changes nothing.
   */
  lemma PushAlone(s: State, t: nat, x: u64)
    requires Reachable(s) && |s.c.items| < MAX_TICKETS && t < |s.pushes| && s.pushes[t].PushReturned?
    ensures var m := PushMove(t, x, false);
      if s.head >= s.c.cap ==> s.head - s.c.cap in s.c.delivered
      then Run(s, Times(m, 6)) == Pushed(s, t, x)
      else Run(s, Times(m, 4)) == s.(pushes := s.pushes[t := PushReturned(false)])
  {
    ReachableInv(s);
    PushCheckOfReleased(s);
    assert s.head >= s.c.cap ==> (s.head - s.c.cap in s.c.delivered <==> Released(s.c, s.head - s.c.cap));
    hide *;
    if PushCheckPasses(s.c.slots, s.c.cap, s.head) {
      PushesAlone(s, t, x);
    } else {
      RefusesAlone(s, t, x);
    }
  }

  lemma PushesAlone(s: State, t: nat, x: u64)
    requires MpmcProtocol.Inv(s) && |s.c.items| < MAX_TICKETS && t < |s.pushes| && s.pushes[t].PushReturned?
    requires PushCheckPasses(s.c.slots, s.c.cap, s.head)
    ensures Run(s, Times(PushMove(t, x, false), 6)) == Pushed(s, t, x)
  {
    assert Shape(s.c);
    hide *;
    FirstHalf(s, t, x);
    SecondHalf(s, t, x);
  }

  lemma FirstHalf(s: State, t: nat, x: u64)
    requires Shape(s.c) && t < |s.pushes| && s.pushes[t].PushReturned?
    requires PushCheckPasses(s.c.slots, s.c.cap, s.head)
    ensures var m := PushMove(t, x, false);
      Run(s, Times(m, 6)) == Run(At(s, t, PushCas(x, s.head)), Times(m, 3))
  {
    hide Run, Times, PushCheckPasses, Step, At;
    var m, h := PushMove(t, x, false), s.head;
    AtSelf(s, t);
    Enter(s, t, x, s.pushes[t].ok);
    Next(s, m, At(s, t, PushLoad(x)), 5);
    Next(At(s, t, PushLoad(x)), m, At(s, t, PushCheck(x, h)), 4);
    Next(At(s, t, PushCheck(x, h)), m, At(s, t, PushCas(x, h)), 3);
  }

  lemma SecondHalf(s: State, t: nat, x: u64)
    requires MpmcProtocol.Inv(s) && |s.c.items| < MAX_TICKETS && t < |s.pushes|
    ensures Run(At(s, t, PushCas(x, s.head)), Times(PushMove(t, x, false), 3)) == Pushed(s, t, x)
  {
    PutOne(s, t, x);
    ClaimedShape(s, t, x);
    hide MpmcProtocol.Inv, Run, Times, Step, At, Pushed, Claimed, Written;
    var m, d, h := PushMove(t, x, false), Claimed(s, t, x), s.head;
    Next(At(s, t, PushCas(x, h)), m, At(d, t, PushWrite(x, h)), 2);
    Next(At(d, t, PushWrite(x, h)), m, At(Written(d, x), t, PushPublish(x, h)), 1);
    Next(At(Written(d, x), t, PushPublish(x, h)), m, Pushed(s, t, x), 0);
    Done(Pushed(s, t, x), m);
  }

  lemma RefusesAlone(s: State, t: nat, x: u64)
    requires Shape(s.c) && t < |s.pushes| && s.pushes[t].PushReturned?
    requires !PushCheckPasses(s.c.slots, s.c.cap, s.head)
    ensures Run(s, Times(PushMove(t, x, false), 4)) == s.(pushes := s.pushes[t := PushReturned(false)])
  {
    hide Run, Times, PushCheckPasses, Step, At;
    var m, h := PushMove(t, x, false), s.head;
    AtSelf(s, t);
    Enter(s, t, x, s.pushes[t].ok);
    Refuse(s, t, x);
    Next(At(s, t, s.pushes[t]), m, At(s, t, PushLoad(x)), 3);
    Next(At(s, t, PushLoad(x)), m, At(s, t, PushCheck(x, h)), 2);
    Next(At(s, t, PushCheck(x, h)), m, At(s, t, PushRecheck(x, h)), 1);
    Next(At(s, t, PushRecheck(x, h)), m, At(s, t, PushReturned(false)), 0);
    Done(At(s, t, PushReturned(false)), m);
    AtIs(s, t, PushReturned(false));
  }

  lemma AtIs(s: State, t: nat, pc: PushPc)
    requires t < |s.pushes|
    ensures At(s, t, pc) == s.(pushes := s.pushes[t := pc])
  {
  }

  /** One move of a run that repeats the move m. */
  lemma Next(s: State, m: Move, s': State, n: nat)
    requires Shape(s.c) && Step(s, m) == s'
    ensures Shape(s'.c) && Run(s, Times(m, n + 1)) == Run(s', Times(m, n))
  {
    hide Step, Run;
    RunCons(s, m, n + 1);
  }

  lemma Done(s: State, m: Move)
    requires Shape(s.c)
    ensures Run(s, Times(m, 0)) == s
  {
    hide Step;
  }

  lemma ClaimedShape(s: State, t: nat, x: u64)
    requires Shape(s.c) && t < |s.pushes|
    ensures var d := Claimed(s, t, x);
      && Shape(d.c) && d.head > 0 && |d.pushes| == |s.pushes| && Shape(Written(d, x).c)
      && |Written(d, x).pushes| == |s.pushes| && Shape(Pushed(s, t, x).c)
  {
  }

  /** Thread t is at pc, all else being as in s. */
  function At(s: State, t: nat, pc: PushPc): (r: State)
    requires t < |s.pushes|
    ensures r.c == s.c && r.head == s.head && |r.pushes| == |s.pushes|
  {
    s.(pushes := s.pushes[t := pc])
  }

  function Claimed(s: State, t: nat, x: u64): State {
    s.(head := s.head + 1, filling := s.filling[s.head := t], c := s.c.(items := s.c.items + [x]))
  }

  /** The item of the last ticket claimed is in its slot. */
  function Written(s: State, x: u64): State
    requires Shape(s.c) && s.head > 0
  {
    var i := Idx(s.head - 1, s.c.cap);
    s.(c := s.c.(slots := s.c.slots[i := s.c.slots[i].(item := x)]))
  }

  lemma AtSelf(s: State, t: nat)
    requires t < |s.pushes|
    ensures At(s, t, s.pushes[t]) == s
  {
  }

  lemma AtSame(s: State, t: nat)
    requires t < |s.pushes|
    ensures forall pc: PushPc, pc': PushPc :: At(At(s, t, pc), t, pc') == At(s, t, pc')
  {
    forall pc: PushPc, pc': PushPc ensures At(At(s, t, pc), t, pc') == At(s, t, pc') {
      assert s.pushes[t := pc][t := pc'] == s.pushes[t := pc'];
    }
  }

  /** The first three moves of a push that runs alone. */
  lemma Enter(s: State, t: nat, x: u64, ok: bool)
    requires Shape(s.c) && t < |s.pushes|
    ensures Step(At(s, t, PushReturned(ok)), PushMove(t, x, false)) == At(s, t, PushLoad(x))
    ensures Step(At(s, t, PushLoad(x)), PushMove(t, x, false)) == At(s, t, PushCheck(x, s.head))
    ensures Step(At(s, t, PushCheck(x, s.head)), PushMove(t, x, false))
         == At(s, t, if PushCheckPasses(s.c.slots, s.c.cap, s.head) then PushCas(x, s.head) else PushRecheck(x, s.head))
  {
    hide Idx, Turn, PushCheckPasses;
    AtSame(s, t);
  }

  lemma Refuse(s: State, t: nat, x: u64)
    requires Shape(s.c) && t < |s.pushes|
    ensures Step(At(s, t, PushRecheck(x, s.head)), PushMove(t, x, false)) == At(s, t, PushReturned(false))
  {
    hide Idx, Turn;
    AtSame(s, t);
  }

  /** The last three moves of a push that runs alone and finds room. */
  lemma PutOne(s: State, t: nat, x: u64)
    requires MpmcProtocol.Inv(s) && |s.c.items| < MAX_TICKETS && t < |s.pushes|
    ensures var m, d, h := PushMove(t, x, false), Claimed(s, t, x), s.head;
      && Step(At(s, t, PushCas(x, h)), m) == At(d, t, PushWrite(x, h))
      && Step(At(d, t, PushWrite(x, h)), m) == At(Written(d, x), t, PushPublish(x, h))
      && Step(At(Written(d, x), t, PushPublish(x, h)), m) == Pushed(s, t, x)
  {
    TurnFits(s.head, s.c.cap);
    assert s.head !in s.filling && s.head == |s.c.items| && Shape(s.c);
    hide MpmcProtocol.Inv;
    Wins(s, t, x);
    Writes(s, t, x);
    Publishes(s, t, x);
    hide *;
  }

  lemma Wins(s: State, t: nat, x: u64)
    requires Shape(s.c) && t < |s.pushes| && s.head < MAX_TICKETS
    ensures Step(At(s, t, PushCas(x, s.head)), PushMove(t, x, false)) == At(Claimed(s, t, x), t, PushWrite(x, s.head))
  {
    hide Idx, Turn;
    AtSame(s, t);
  }

  lemma Writes(s: State, t: nat, x: u64)
    requires Shape(s.c) && t < |s.pushes|
    ensures var d := Claimed(s, t, x);
      Step(At(d, t, PushWrite(x, s.head)), PushMove(t, x, false)) == At(Written(d, x), t, PushPublish(x, s.head))
  {
    hide Idx, Turn;
    AtSame(Claimed(s, t, x), t);
  }

  lemma Publishes(s: State, t: nat, x: u64)
    requires Shape(s.c) && t < |s.pushes| && s.head !in s.filling
    requires 2 * Turn(s.head, s.c.cap) + 1 < U32_LIMIT
    ensures var d := Claimed(s, t, x);
      Step(At(Written(d, x), t, PushPublish(x, s.head)), PushMove(t, x, false)) == Pushed(s, t, x)
  {
    hide Idx, Turn;
    AtSame(s, t);
    assert s.filling[s.head := t] - {s.head} == s.filling;
  }
}
