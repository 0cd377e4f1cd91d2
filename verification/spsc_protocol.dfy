// The single-producer single-consumer ring of c_queue.cpp under arbitrary interleaving of
// its two threads. Each side works on a cached copy of the other side's index and reloads
// it only when the copy says full (producer) or empty (consumer).
module SpscProtocol {
  import opened Tickets

  /** Where the producer is inside `try_push`. */
  datatype ProdPc =
    | ProdReturned(ok: bool)                         // not inside a call
    | ProdTest(item: u64)                            // compare the next index with the cached read index
    | ProdRefresh(item: u64, write: nat, next: nat)  // reload the read index and compare again
    | ProdWrite(item: u64, write: nat, next: nat)    // write the slot
    | ProdStore(item: u64, next: nat)                // store the write index, return true

  /**
   * Where the consumer is inside `try_pop_multiple`. `try_pop` makes the same accesses as a
   * batch of one. `got` holds what has been copied out so far.
   */
  datatype ConsPc =
    | ConsReturned(got: seq<u64>)                        // not inside a call
    | ConsTest(count: nat)                               // compare the read index with the cached write index
    | ConsRefresh(count: nat, read: nat)                 // reload the write index and compare again
    | ConsRead(count: nat, read: nat, got: seq<u64>)     // loop test, then copy one slot
    | ConsStore(count: nat, read: nat, got: seq<u64>)    // store the read index, return

  /**
   * `pushed` and `popped` are history: every item stored and every item taken out, so that
   * their lengths are the unbounded counters behind the two indices; `seenRead` and
   * `seenWrite` are the counters behind the two cached copies.
   */
  datatype State = State(
    cap: nat,
    slots: seq<u64>,
    writeIdx: nat, readIdxCache: nat, prod: ProdPc,
    readIdx: nat, writeIdxCache: nat, cons: ConsPc,
    pushed: seq<u64>, popped: seq<u64>, seenRead: nat, seenWrite: nat)

  predicate Shape(s: State) {
    && s.cap >= 2 && |s.slots| == s.cap
    && s.writeIdx < s.cap && s.readIdx < s.cap
    && (match s.prod
        case ProdRefresh(_, write, next) => write < s.cap && next < s.cap
        case ProdWrite(_, write, next) => write < s.cap && next < s.cap
        case ProdStore(_, next) => next < s.cap
        case _ => true)
    && (match s.cons
        case ConsRead(_, read, _) => read < s.cap
        case ConsStore(_, read, _) => read < s.cap
        case _ => true)
  }

  function Next(i: nat, cap: nat): (r: nat)
    ensures i < cap ==> r < cap
  {
    if i + 1 == cap then 0 else i + 1
  }

  function Min(a: int, b: int): int {
    if a < b then a else b
  }

  function Init(cap: nat): (s: State)
    requires cap >= 2
    ensures Shape(s)
  {
    State(cap, seq(cap, i => 0), 0, 0, ProdReturned(false), 0, 0, ConsReturned([]), [], [], 0, 0)
  }

  /** One step of `try_push`; `item` is used when a call starts. */
  function ProdStep(s: State, item: u64): (s': State)
    requires Shape(s)
    ensures Shape(s') && s'.cap == s.cap
  {
    match s.prod
    case ProdReturned(_) => s.(prod := ProdTest(item))
    case ProdTest(x) =>
      var next := Next(s.writeIdx, s.cap);
      s.(prod := if next == s.readIdxCache then ProdRefresh(x, s.writeIdx, next) else ProdWrite(x, s.writeIdx, next))
    case ProdRefresh(x, write, next) =>
      s.(readIdxCache := s.readIdx, seenRead := |s.popped|,
         prod := if next == s.readIdx then ProdReturned(false) else ProdWrite(x, write, next))
    case ProdWrite(x, write, next) =>
      s.(slots := s.slots[write := x], prod := ProdStore(x, next))
    case ProdStore(x, next) =>
      s.(writeIdx := next, pushed := s.pushed + [x], prod := ProdReturned(true))
  }

  /** One step of `try_pop_multiple`; `count` is used when a call starts. */
  function ConsStep(s: State, count: nat): (s': State)
    requires Shape(s)
    ensures Shape(s') && s'.cap == s.cap
  {
    match s.cons
    case ConsReturned(_) => s.(cons := ConsTest(count))
    case ConsTest(n) =>
      s.(cons := if s.readIdx == s.writeIdxCache then ConsRefresh(n, s.readIdx) else ConsRead(n, s.readIdx, []))
    case ConsRefresh(n, read) =>
      s.(writeIdxCache := s.writeIdx, seenWrite := |s.pushed|,
         cons := if s.writeIdx == read then ConsReturned([]) else ConsRead(n, s.readIdx, []))
    case ConsRead(n, read, got) =>
      if |got| < n && read != s.writeIdxCache then
        s.(cons := ConsRead(n, Next(read, s.cap), got + [s.slots[read]]))
      else
        s.(cons := ConsStore(n, read, got))
    case ConsStore(_, read, got) =>
      s.(readIdx := read, popped := s.popped + got, cons := ConsReturned(got))
  }

  // ---- the invariant ------------------------------------------------------------------

  /**
   * The order of the counters behind the two indices and their two cached copies, and the
   * position of each index modulo the capacity.
   */
  ghost predicate CountersInv(s: State) {
    && Shape(s)
    && s.seenRead <= |s.popped| <= s.seenWrite <= |s.pushed| <= s.seenRead + s.cap - 1
    && s.writeIdx == Idx(|s.pushed|, s.cap)
    && s.readIdx == Idx(|s.popped|, s.cap)
    && s.readIdxCache == Idx(s.seenRead, s.cap)
    && s.writeIdxCache == Idx(s.seenWrite, s.cap)
  }

  /** The items stored and not taken out are in their slots; those taken out came in order. */
  ghost predicate ItemsInv(s: State)
    requires CountersInv(s)
  {
    && s.popped == s.pushed[..|s.popped|]
    && (forall k: nat :: |s.popped| <= k < |s.pushed| ==> s.slots[Idx(k, s.cap)] == s.pushed[k])
  }

  /** The producer is about to use a slot outside the ones still to be read. */
  ghost predicate ProdOk(s: State)
    requires CountersInv(s)
  {
    match s.prod
    case ProdReturned(_) => true
    case ProdTest(_) => true
    case ProdRefresh(_, write, next) =>
      write == s.writeIdx && next == Idx(|s.pushed| + 1, s.cap)
    case ProdWrite(_, write, next) =>
      && write == s.writeIdx && next == Idx(|s.pushed| + 1, s.cap)
      && |s.pushed| + 1 <= s.seenRead + s.cap - 1
    case ProdStore(x, next) =>
      && next == Idx(|s.pushed| + 1, s.cap)
      && |s.pushed| + 1 <= s.seenRead + s.cap - 1
      && s.slots[s.writeIdx] == x
  }

  /** What the consumer has copied out so far is what comes next in order. */
  ghost predicate ConsOk(s: State)
    requires CountersInv(s)
  {
    match s.cons
    case ConsReturned(_) => true
    case ConsTest(_) => true
    case ConsRefresh(_, read) => read == s.readIdx
    case ConsRead(n, read, got) => CopiedOk(s, read, got) && |got| <= n && |s.popped| < s.seenWrite
    case ConsStore(n, read, got) =>
      && CopiedOk(s, read, got) && |s.popped| < s.seenWrite
      && |got| == Min(n, s.seenWrite - |s.popped|)
  }

  ghost predicate CopiedOk(s: State, read: nat, got: seq<u64>)
    requires CountersInv(s)
  {
    var r := |s.popped| + |got|;
    && r <= s.seenWrite
    && read == Idx(r, s.cap)
    && got == s.pushed[|s.popped|..r]
  }

  ghost predicate Inv(s: State) {
    CountersInv(s) && ItemsInv(s) && ProdOk(s) && ConsOk(s)
  }

  lemma InitInv(cap: nat)
    requires cap >= 2
    ensures Inv(Init(cap))
  {
  }

  /** Between two counters less than a lap apart the index tells them apart. */
  lemma Distinct(a: nat, b: nat, cap: nat)
    requires cap > 0 && a < b < a + cap
    ensures Idx(a, cap) != Idx(b, cap)
  {
    if Idx(a, cap) == Idx(b, cap) {
      SameSlot(a, b, cap);
    }
  }

  lemma Lap(a: nat, cap: nat)
    requires cap > 0
    ensures Idx(a + cap, cap) == Idx(a, cap)
  {
    NextLap(a, cap);
  }

  lemma NextOk(a: nat, cap: nat)
    requires cap > 0
    ensures Next(Idx(a, cap), cap) == Idx(a + 1, cap)
  {
    NextIdx(a, cap);
  }

  /** The producer's full test, on any read counter not more than a lap behind. */
  lemma FullTest(w: nat, r: nat, cap: nat)
    requires cap >= 1 && r <= w <= r + cap - 1
    ensures Idx(w + 1, cap) == Idx(r, cap) <==> w == r + cap - 1
  {
    if w == r + cap - 1 {
      Lap(r, cap);
    } else {
      Distinct(r, w + 1, cap);
    }
  }

  /** The consumer's empty test. */
  lemma EmptyTest(w: nat, r: nat, cap: nat)
    requires cap >= 1 && r <= w <= r + cap - 1
    ensures Idx(w, cap) == Idx(r, cap) <==> w == r
  {
    if r < w {
      Distinct(r, w, cap);
    }
  }

  // ---- the steps keep the invariant ---------------------------------------------------

  lemma ProdKeeps(s: State, item: u64)
    requires Inv(s)
    ensures Inv(ProdStep(s, item))
  {
    hide Idx;
    NextOk(|s.pushed|, s.cap);
    FullTest(|s.pushed|, s.seenRead, s.cap);
    FullTest(|s.pushed|, |s.popped|, s.cap);
    if s.prod.ProdWrite? {
      WriteKeeps(s, item);
    } else if s.prod.ProdStore? {
      StoreKeeps(s, item);
    }
  }

  /** Writing the slot at the write index disturbs no item still to be read. */
  lemma WriteKeeps(s: State, item: u64)
    requires Inv(s) && s.prod.ProdWrite?
    ensures Inv(ProdStep(s, item))
  {
    var s' := ProdStep(s, item);
    forall k: nat | |s.popped| <= k < |s.pushed| ensures s'.slots[Idx(k, s.cap)] == s.pushed[k] {
      Distinct(k, |s.pushed|, s.cap);
    }
  }

  lemma StoreKeeps(s: State, item: u64)
    requires Inv(s) && s.prod.ProdStore?
    ensures Inv(ProdStep(s, item))
  {
    hide Idx;
  }

  lemma ConsKeeps(s: State, count: nat)
    requires Inv(s)
    ensures Inv(ConsStep(s, count))
  {
    hide Idx;
    EmptyTest(s.seenWrite, |s.popped|, s.cap);
    EmptyTest(|s.pushed|, |s.popped|, s.cap);
    if s.cons.ConsRead? {
      ReadKeeps(s, count);
    }
  }

  /** Copying one slot. */
  lemma ReadKeeps(s: State, count: nat)
    requires Inv(s) && s.cons.ConsRead?
    ensures Inv(ConsStep(s, count))
  {
    NextCopied(s);
    hide Idx;
  }

  /** What the loop of a batch finds when it tests its read index, and what it copies. */
  lemma NextCopied(s: State)
    requires Inv(s) && s.cons.ConsRead?
    ensures var r := |s.popped| + |s.cons.got|;
      && Next(s.cons.read, s.cap) == Idx(r + 1, s.cap)
      && (s.cons.read == s.writeIdxCache <==> r == s.seenWrite)
      && (r < s.seenWrite ==> s.cons.got + [s.slots[s.cons.read]] == s.pushed[|s.popped|..r + 1])
  {
    var r := |s.popped| + |s.cons.got|;
    NextOk(r, s.cap);
    EmptyTest(s.seenWrite, r, s.cap);
    hide Idx, ProdOk;
    if r < s.seenWrite {
      assert s.pushed[|s.popped|..r] + [s.pushed[r]] == s.pushed[|s.popped|..r + 1];
    }
  }

  datatype Move = ProdMove(item: u64) | ConsMove(count: nat)

  function Step(s: State, m: Move): (s': State)
    requires Shape(s)
    ensures Shape(s') && s'.cap == s.cap
  {
    match m
    case ProdMove(item) => ProdStep(s, item)
    case ConsMove(count) => ConsStep(s, count)
  }

  function Run(s: State, schedule: seq<Move>): (s': State)
    requires Shape(s)
    ensures Shape(s') && s'.cap == s.cap
    decreases |schedule|
  {
    if schedule == [] then s
    else
      var n := |schedule| - 1;
      Step(Run(s, schedule[..n]), schedule[n])
  }

  /** Every interleaving of the two threads keeps the invariant. */
  lemma {:induction false} RunInv(s: State, schedule: seq<Move>)
    requires Inv(s)
    ensures Inv(Run(s, schedule))
    decreases |schedule|
  {
    if schedule != [] {
      var n := |schedule| - 1;
      RunInv(s, schedule[..n]);
      match schedule[n]
      case ProdMove(item) => ProdKeeps(Run(s, schedule[..n]), item);
      case ConsMove(count) => ConsKeeps(Run(s, schedule[..n]), count);
    }
  }

  // ---- what the ring promises ---------------------------------------------------------

  /** The ring as constructed, with any capacity, after any schedule. */
  ghost predicate Reachable(s: State) {
    exists cap: nat, schedule: seq<Move> :: cap >= 2 && s == Run(Init(cap), schedule)
  }

  lemma ReachableInv(s: State)
    requires Reachable(s)
    ensures Inv(s)
  {
    var cap: nat, schedule: seq<Move> :| cap >= 2 && s == Run(Init(cap), schedule);
    InitInv(cap);
    RunInv(Init(cap), schedule);
  }

  /** The stale copies lag, in a fixed order, and never by more than the ring can hold. */
  lemma StaleCaches(s: State)
    requires Reachable(s)
    ensures s.seenRead <= |s.popped| <= s.seenWrite <= |s.pushed| <= s.seenRead + s.cap - 1
    ensures s.writeIdx == Idx(|s.pushed|, s.cap) && s.readIdx == Idx(|s.popped|, s.cap)
    ensures s.readIdxCache == Idx(s.seenRead, s.cap) && s.writeIdxCache == Idx(s.seenWrite, s.cap)
  {
    ReachableInv(s);
  }

  /** The slot the producer is about to write is neither about to be read nor still to be read. */
  lemma NoRace(s: State)
    requires Reachable(s) && s.prod.ProdWrite?
    ensures s.cons.ConsRead? && s.cons.read != s.writeIdxCache ==> s.prod.write != s.cons.read
    ensures forall k: nat :: |s.popped| <= k < |s.pushed| ==> Idx(k, s.cap) != s.prod.write
  {
    ReachableInv(s);
    if s.cons.ConsRead? {
      var r := |s.popped| + |s.cons.got|;
      EmptyTest(s.seenWrite, r, s.cap);
      if r < s.seenWrite {
        Distinct(r, |s.pushed|, s.cap);
      }
    }
    forall k: nat | |s.popped| <= k < |s.pushed| ensures Idx(k, s.cap) != s.prod.write {
      Distinct(k, |s.pushed|, s.cap);
    }
  }

  /** Items come out in the order they were stored, none lost, duplicated or invented. */
  lemma Fifo(s: State)
    requires Reachable(s)
    ensures |s.popped| <= |s.pushed| && s.popped == s.pushed[..|s.popped|]
    ensures forall k: nat :: |s.popped| <= k < |s.pushed| ==> s.slots[Idx(k, s.cap)] == s.pushed[k]
  {
    ReachableInv(s);
  }

  /** A call refuses only at its reload, exactly when the ring is full or empty at that load. */
  lemma RefusalIff(s: State, item: u64, count: nat)
    requires Reachable(s)
    ensures !s.prod.ProdReturned? ==>
      (ProdStep(s, item).prod == ProdReturned(false)
       <==> s.prod.ProdRefresh? && |s.pushed| - |s.popped| == s.cap - 1)
    ensures s.cons.ConsTest? || s.cons.ConsRefresh? || (s.cons.ConsStore? && s.cons.count > 0) ==>
      (ConsStep(s, count).cons == ConsReturned([])
       <==> s.cons.ConsRefresh? && |s.pushed| == |s.popped|)
  {
    ReachableInv(s);
    FullTest(|s.pushed|, |s.popped|, s.cap);
    EmptyTest(|s.pushed|, |s.popped|, s.cap);
  }

  /** A batch takes as many of the items it knows of as fit, in order, in one move of the index. */
  lemma BatchedPop(s: State, count: nat)
    requires Reachable(s) && s.cons.ConsStore?
    ensures var k := Min(s.cons.count, s.seenWrite - |s.popped|);
            && 0 <= k <= |s.pushed| - |s.popped|
            && ConsStep(s, count).cons == ConsReturned(s.pushed[|s.popped|..|s.popped| + k])
            && ConsStep(s, count).popped == s.pushed[..|s.popped| + k]
  {
    hide Idx, Reachable, ProdOk;
    ReachableInv(s);
    var r := |s.popped| + |s.cons.got|;
    assert s.pushed[..|s.popped|] + s.pushed[|s.popped|..r] == s.pushed[..r];
  }
}
