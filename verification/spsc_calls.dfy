// What whole calls of the single-producer single-consumer ring do, whatever the other thread
// does meanwhile.
module SpscCalls {
  import opened Tickets
  import opened SpscProtocol

  /** A move of one side leaves alone what belongs to the other. */
  lemma MoveLocal(s: State, m: Move)
    requires Shape(s)
    ensures var s' := Step(s, m);
      && (m.ProdMove? ==>
            && s'.cons == s.cons && s'.readIdx == s.readIdx && s'.writeIdxCache == s.writeIdxCache
            && s'.popped == s.popped && s'.seenWrite == s.seenWrite)
      && (m.ConsMove? ==>
            && s'.prod == s.prod && s'.writeIdx == s.writeIdx && s'.readIdxCache == s.readIdxCache
            && s'.pushed == s.pushed && s'.seenRead == s.seenRead && s'.slots == s.slots)
  {
  }

  function Added(before: seq<u64>, after: seq<u64>): seq<u64> {
    if |before| <= |after| then after[|before|..] else []
  }

  // ---- what a push was given, did and returned ----------------------------------------

  /** What is seen from outside of the latest push: its item, and what its moves added to the ring. */
  datatype PushLog = NotPushed | Pushed(item: u64, added: seq<u64>)

  function ObservePush(log: PushLog, before: State, after: State, m: Move): PushLog {
    var added := Added(before.pushed, after.pushed);
    if !m.ProdMove? then log
    else if before.prod.ProdReturned? then Pushed(m.item, added)
    else if log.Pushed? then Pushed(log.item, log.added + added)
    else NotPushed
  }

  function PushLogOf(s: State, schedule: seq<Move>): PushLog
    requires Shape(s)
    decreases |schedule|
  {
    if schedule == [] then NotPushed
    else
      var n := |schedule| - 1;
      var before := Run(s, schedule[..n]);
      ObservePush(PushLogOf(s, schedule[..n]), before, Step(before, schedule[n]), schedule[n])
  }

  ghost predicate TracksPush(s: State, log: PushLog) {
    match s.prod
    case ProdReturned(ok) =>
      (ok ==> log.Pushed?) && (log.Pushed? ==> log.added == if ok then [log.item] else [])
    case pc => log == Pushed(pc.item, [])
  }

  lemma PushMoveTracks(s: State, m: Move, log: PushLog)
    requires Shape(s) && TracksPush(s, log)
    ensures TracksPush(Step(s, m), ObservePush(log, s, Step(s, m), m))
  {
    MoveLocal(s, m);
  }

  lemma {:induction false} PushTracks(s: State, schedule: seq<Move>)
    requires Shape(s) && s.prod == ProdReturned(false)
    ensures TracksPush(Run(s, schedule), PushLogOf(s, schedule))
    decreases |schedule|
  {
    if schedule != [] {
      hide Step, TracksPush, ObservePush;
      var n := |schedule| - 1;
      PushTracks(s, schedule[..n]);
      PushMoveTracks(Run(s, schedule[..n]), schedule[n], PushLogOf(s, schedule[..n]));
    }
  }

  /** In every run: a push that returned true added exactly the item it was given, one that returned false nothing. */
  lemma PushCall(cap: nat, schedule: seq<Move>)
    requires cap >= 2
    ensures var s, log := Run(Init(cap), schedule), PushLogOf(Init(cap), schedule);
      s.prod.ProdReturned? && log.Pushed? ==> log.added == if s.prod.ok then [log.item] else []
  {
    PushTracks(Init(cap), schedule);
  }

  // ---- what a batched pop was given, did and returned ---------------------------------

  /** What is seen from outside of the latest batched pop: its count, and what its moves took out. */
  datatype PopLog = NotPopped | Popped(count: nat, taken: seq<u64>)

  function ObservePop(log: PopLog, before: State, after: State, m: Move): PopLog {
    var taken := Added(before.popped, after.popped);
    if !m.ConsMove? then log
    else if before.cons.ConsReturned? then Popped(m.count, taken)
    else if log.Popped? then Popped(log.count, log.taken + taken)
    else NotPopped
  }

  function PopLogOf(s: State, schedule: seq<Move>): PopLog
    requires Shape(s)
    decreases |schedule|
  {
    if schedule == [] then NotPopped
    else
      var n := |schedule| - 1;
      var before := Run(s, schedule[..n]);
      ObservePop(PopLogOf(s, schedule[..n]), before, Step(before, schedule[n]), schedule[n])
  }

  ghost predicate TracksPop(s: State, log: PopLog) {
    match s.cons
    case ConsReturned(got) => log.Popped? ==> got == log.taken && |got| <= log.count
    case pc => log == Popped(pc.count, [])
  }

  lemma PopMoveTracks(s: State, m: Move, log: PopLog)
    requires Inv(s) && TracksPop(s, log)
    ensures TracksPop(Step(s, m), ObservePop(log, s, Step(s, m), m))
  {
    MoveLocal(s, m);
    hide Idx, ProdOk, ItemsInv;
  }

  lemma {:induction false} PopTracks(s: State, schedule: seq<Move>)
    requires Inv(s) && s.cons.ConsReturned?
    ensures TracksPop(Run(s, schedule), PopLogOf(s, schedule))
    decreases |schedule|
  {
    if schedule != [] {
      assert Shape(s);
      hide Step, TracksPop, ObservePop, Inv;
      var n := |schedule| - 1;
      PopTracks(s, schedule[..n]);
      RunInv(s, schedule[..n]);
      PopMoveTracks(Run(s, schedule[..n]), schedule[n], PopLogOf(s, schedule[..n]));
    }
  }

  /**
   * In every run: a call that returned took out exactly what it returned, no more than the
   * count it was given. The move that returns takes the next items, as many as the count and
   * what the cached write index now knows of allow; with a positive count it takes none only
   * if the ring is empty.
   */
  lemma PopCall(cap: nat, schedule: seq<Move>, c: nat)
    requires cap >= 2
    ensures var s, log := Run(Init(cap), schedule), PopLogOf(Init(cap), schedule);
      && (s.cons.ConsReturned? && log.Popped? ==> s.cons.got == log.taken && |s.cons.got| <= log.count)
      && (!s.cons.ConsReturned? ==> log.Popped? && log.taken == [] && ReturnsNext(s, ConsStep(s, c), log.count))
  {
    var s0 := Init(cap);
    InitInv(cap);
    hide Run, PopLogOf, Init;
    PopTracks(s0, schedule);
    RunInv(s0, schedule);
    var s := Run(s0, schedule);
    if !s.cons.ConsReturned? {
      NextReturned(s, c);
    }
  }

  /** If the move from s to s' returns, it returns and takes out the next items in order. */
  ghost predicate ReturnsNext(s: State, s': State, count: nat) {
    s'.cons.ConsReturned? ==>
      var r, k := |s.popped|, Min(count, s'.seenWrite - |s.popped|);
      && 0 <= k <= |s.pushed| - r
      && s'.cons.got == s.pushed[r..r + k] && s'.popped == s.pushed[..r + k]
      && (count > 0 && k == 0 ==> |s.pushed| == r)
  }

  lemma NextReturned(s: State, c: nat)
    requires Inv(s) && !s.cons.ConsReturned?
    ensures ReturnsNext(s, ConsStep(s, c), s.cons.count)
  {
    EmptyTest(|s.pushed|, |s.popped|, s.cap);
    hide Idx, ProdOk;
    if s.cons.ConsStore? {
      var r := |s.popped| + |s.cons.got|;
      assert s.pushed[..|s.popped|] + s.pushed[|s.popped|..r] == s.pushed[..r];
    }
  }

  // ---- every call returns -------------------------------------------------------------

  /** How many moves of its own each side is at most from its return. */
  function PushRank(s: State): nat {
    match s.prod
    case ProdReturned(_) => 0
    case ProdTest(_) => 4
    case ProdRefresh(_, _, _) => 3
    case ProdWrite(_, _, _) => 2
    case ProdStore(_, _) => 1
  }

  function PopRank(s: State): nat {
    match s.cons
    case ConsReturned(_) => 0
    case ConsTest(n) => n + 4
    case ConsRefresh(n, _) => n + 3
    case ConsRead(n, _, got) => (if |got| < n then n - |got| else 0) + 2
    case ConsStore(_, _, _) => 1
  }

  /**
   * Both sides are wait-free: each move of a side inside a call brings it nearer to its
   * return, and no move of the other side takes it back.
   */
  lemma MoveRanks(s: State, m: Move)
    requires Shape(s)
    ensures m.ProdMove? ==> PopRank(Step(s, m)) == PopRank(s)
    ensures m.ConsMove? ==> PushRank(Step(s, m)) == PushRank(s)
    ensures m.ProdMove? && !s.prod.ProdReturned? ==> PushRank(Step(s, m)) < PushRank(s)
    ensures m.ConsMove? && !s.cons.ConsReturned? ==> PopRank(Step(s, m)) < PopRank(s)
    ensures m.ProdMove? && s.prod.ProdReturned? ==> PushRank(Step(s, m)) == 4
    ensures m.ConsMove? && s.cons.ConsReturned? ==> PopRank(Step(s, m)) == m.count + 4
    ensures (PushRank(s) == 0 <==> s.prod.ProdReturned?) && (PopRank(s) == 0 <==> s.cons.ConsReturned?)
  {
  }
}
