// The parallel-for protocol of c_job.cpp: the workers that hold one work item's ticket race
// on its work index, run the ranges they draw, and leave when they draw an empty one.
module ParallelFor {
  import opened Tickets

  /** Where a worker is inside the loop on one work item; the name says what it did last. */
  datatype Pc =
    | Ready             // next: fetch_add on the work index
    | Claimed(k: nat)   // drew index k; next: run the range, or if it is empty fetch_sub the ref count
    | Executed(k: nat)  // ran range k; next: fetch_sub the done index
    | Left              // left the loop on this work item

  /** A worker that has drawn an index and not yet counted it off. */
  predicate Busy(pc: Pc) {
    pc.Claimed? || pc.Executed?
  }

  /**
   * The shared counters of a work item and the workers that were sent its ticket. History:
   * how often each iteration ran, the ranges that ran and those whose done index decrement
   * is done, who holds each index drawn, who drew an empty range, who left, and how often
   * the two branches guarded by a counter reading zero were taken.
   */
  datatype State = State(
    total: nat, inner: nat,
    workIndex: nat, doneIndex: int, refCount: int, workers: seq<Pc>,
    counts: seq<nat>, executed: set<nat>, finished: set<nat>, holder: map<nat, nat>,
    dry: set<nat>, left: set<nat>, signalled: nat, recycled: nat)

  function Min(a: nat, b: nat): nat {
    if a < b then a else b
  }

  /** The initial done index of `s_schedule_parallel`. */
  function Ranges(total: nat, inner: nat): nat
    requires inner >= 1
  {
    (total + (inner - 1)) / inner
  }

  function Begin(s: State, k: nat): nat {
    Min(k * s.inner, s.total)
  }

  function End(s: State, k: nat): nat {
    Min(Begin(s, k) + s.inner, s.total)
  }

  /** The work item as scheduled for `workers` workers. */
  function Init(total: nat, inner: nat, workers: nat): State
    requires inner >= 1
  {
    State(total, inner, 0, Ranges(total, inner), workers, seq(workers, i => Ready),
          seq(total, i => 0), {}, {}, map[], {}, {}, 0, 0)
  }

  /** The job's execute function ran once on [from, to). */
  function Bump(counts: seq<nat>, from: nat, to: nat): (r: seq<nat>)
    ensures |r| == |counts|
  {
    seq(|counts|, j requires 0 <= j < |counts| => counts[j] + if from <= j < to then 1 else 0)
  }

  /** One access of worker w; a worker that left, or does not exist, has none. */
  function Step(s: State, w: nat): (s': State)
    ensures s'.total == s.total && s'.inner == s.inner && |s'.workers| == |s.workers|
  {
    if w >= |s.workers| then s
    else match s.workers[w]
      case Ready =>
        var k := s.workIndex;
        s.(workIndex := k + 1, workers := s.workers[w := Claimed(k)], holder := s.holder[k := w],
           dry := if Begin(s, k) < End(s, k) then s.dry else s.dry + {w})
      case Claimed(k) =>
        if Begin(s, k) < End(s, k) then
          s.(counts := Bump(s.counts, Begin(s, k), End(s, k)), executed := s.executed + {k},
             workers := s.workers[w := Executed(k)])
        else
          s.(refCount := s.refCount - 1, workers := s.workers[w := Left],
             holder := s.holder - {k}, left := s.left + {w},
             recycled := s.recycled + if s.refCount == 0 then 1 else 0)
      case Executed(k) =>
        s.(doneIndex := s.doneIndex - 1, workers := s.workers[w := Ready],
           holder := s.holder - {k}, finished := s.finished + {k},
           signalled := s.signalled + if s.doneIndex == 0 then 1 else 0)
      case Left => s
  }

  function Run(s: State, schedule: seq<nat>): (s': State)
    ensures s'.total == s.total && s'.inner == s.inner && |s'.workers| == |s.workers|
    decreases |schedule|
  {
    if schedule == [] then s
    else
      var n := |schedule| - 1;
      Step(Run(s, schedule[..n]), schedule[n])
  }

  // ---- the ranges ---------------------------------------------------------------------

  /** The number of ranges rounds the quotient up. */
  lemma RangesBounds(total: nat, inner: nat)
    requires inner >= 1
    ensures Ranges(total, inner) * inner < total + inner
    ensures total <= Ranges(total, inner) * inner
  {
    var x := total + (inner - 1);
    assert x == (x / inner) * inner + x % inner;
  }

  /** Range k is empty exactly from the number of ranges on, and holds the iterations j with j / inner == k. */
  lemma RangeIff(s: State, k: nat)
    requires s.inner >= 1
    ensures Begin(s, k) < End(s, k) <==> k < Ranges(s.total, s.inner)
    ensures forall j: nat :: j < s.total ==> (Begin(s, k) <= j < End(s, k) <==> j / s.inner == k)
  {
    var c := Ranges(s.total, s.inner);
    RangesBounds(s.total, s.inner);
    if k < c {
      Monotone(k + 1, c, s.inner);
      assert (k + 1) * s.inner == k * s.inner + s.inner;
    } else {
      Monotone(c, k, s.inner);
    }
    forall j: nat | j < s.total ensures Begin(s, k) <= j < End(s, k) <==> j / s.inner == k {
      InRange(j, k, s.inner);
    }
  }

  lemma InRange(j: nat, k: nat, inner: nat)
    requires inner >= 1
    ensures k * inner <= j < k * inner + inner <==> j / inner == k
  {
    assert j == (j / inner) * inner + j % inner;
    if k * inner <= j < k * inner + inner {
      DivMod(j, k, j - k * inner, inner);
    }
  }

  /** The schedulers of single jobs and of one-range loops set the done index to this number too. */
  lemma OneRange(n: nat)
    requires n >= 1
    ensures Ranges(n, n) == 1
  {
    DivMod(n + (n - 1), 1, n - 1, n);
  }

  // ---- the invariant ------------------------------------------------------------------

  ghost predicate WorkerOk(s: State, w: nat)
    requires s.inner >= 1 && w < |s.workers|
  {
    var c := Ranges(s.total, s.inner);
    && (w in s.left <==> s.workers[w].Left?)
    && (match s.workers[w]
        case Ready => w !in s.dry
        case Claimed(k) => k in s.holder && s.holder[k] == w && k !in s.executed && (w in s.dry <==> k >= c)
        case Executed(k) => k in s.holder && s.holder[k] == w && k in s.executed && k !in s.finished && w !in s.dry
        case Left => w in s.dry)
  }

  /** Each index drawn is held by one worker until its decrement is done. */
  ghost predicate ClaimsInv(s: State)
    requires s.inner >= 1
  {
    var c := Ranges(s.total, s.inner);
    && (forall k: nat :: k in s.holder ==> k < s.workIndex && k !in s.finished)
    && (forall k: nat :: k < s.workIndex && k < c ==> k in s.holder || k in s.finished)
    && (forall k: nat :: k in s.executed ==> k < c && k < s.workIndex)
    && s.finished <= s.executed
    && (forall k: nat :: k in s.executed && k !in s.finished ==>
          k in s.holder && s.holder[k] < |s.workers| && s.workers[s.holder[k]] == Executed(k))
    && (forall k: nat :: k in s.holder && k !in s.executed ==>
          s.holder[k] < |s.workers| && s.workers[s.holder[k]] == Claimed(k))
  }

  /** The counters, as the code keeps them, count. */
  ghost predicate CountersInv(s: State)
    requires s.inner >= 1
  {
    var c := Ranges(s.total, s.inner);
    && s.doneIndex == c - |s.finished|
    && s.refCount == |s.workers| - |s.left|
    && |s.dry| == (if s.workIndex <= c then 0 else s.workIndex - c)
    && (forall w: nat :: w in s.dry ==> w < |s.workers|)
    && s.left <= s.dry
    && s.signalled == 0 && s.recycled == 0
  }

  ghost predicate CountsInv(s: State)
    requires s.inner >= 1
  {
    && |s.counts| == s.total
    && (forall j: nat :: j < s.total ==> s.counts[j] == if j / s.inner in s.executed then 1 else 0)
  }

  ghost predicate Inv(s: State) {
    && s.inner >= 1
    && ClaimsInv(s) && CountersInv(s) && CountsInv(s)
    && (forall w: nat :: w < |s.workers| ==> WorkerOk(s, w))
  }

  lemma InitInv(total: nat, inner: nat, workers: nat)
    requires inner >= 1
    ensures Inv(Init(total, inner, workers))
  {
  }

  /** A set of numbers below n has at most n elements, and exactly n only if it has them all. */
  lemma {:induction false} Below(a: set<nat>, n: nat)
    requires forall x: nat :: x in a ==> x < n
    ensures |a| <= n
    ensures |a| == n <==> forall x: nat :: x < n ==> x in a
  {
    if n == 0 {
      assert a == {};
    } else {
      var m := n - 1;
      var b := a - {m};
      Below(b, m);
      if m in a {
        assert a == b + {m};
      } else {
        assert a == b;
      }
      if |a| == n {
        forall x: nat | x < n ensures x in a {
          assert x == m || x in b;
        }
      }
    }
  }

  // ---- the steps keep the invariant ---------------------------------------------------

  lemma DrawKeeps(s: State, w: nat)
    requires Inv(s) && w < |s.workers| && s.workers[w].Ready?
    ensures Inv(Step(s, w))
  {
    var s' := Step(s, w);
    RangeIff(s, s.workIndex);
    assert WorkerOk(s, w);
    hide Ranges, Begin, End;
    forall u: nat | u < |s.workers| ensures WorkerOk(s', u) {
      assert WorkerOk(s, u);
    }
  }

  lemma ExecuteKeeps(s: State, w: nat)
    requires Inv(s) && w < |s.workers| && s.workers[w].Claimed?
    requires Begin(s, s.workers[w].k) < End(s, s.workers[w].k)
    ensures Inv(Step(s, w))
  {
    var s' := Step(s, w);
    RangeIff(s, s.workers[w].k);
    assert WorkerOk(s, w);
    hide Ranges, Begin, End;
    forall u: nat | u < |s.workers| ensures WorkerOk(s', u) {
      assert WorkerOk(s, u);
    }
  }

  lemma LeaveKeeps(s: State, w: nat)
    requires Inv(s) && w < |s.workers| && s.workers[w].Claimed?
    requires !(Begin(s, s.workers[w].k) < End(s, s.workers[w].k))
    ensures Inv(Step(s, w))
  {
    var s' := Step(s, w);
    RangeIff(s, s.workers[w].k);
    assert WorkerOk(s, w);
    Below(s.left, |s.workers|);
    hide Ranges, Begin, End;
    forall u: nat | u < |s.workers| ensures WorkerOk(s', u) {
      assert WorkerOk(s, u);
    }
  }

  lemma DoneKeeps(s: State, w: nat)
    requires Inv(s) && w < |s.workers| && s.workers[w].Executed?
    ensures Inv(Step(s, w))
  {
    var s' := Step(s, w);
    assert WorkerOk(s, w);
    Below(s.finished, Ranges(s.total, s.inner));
    hide Ranges, Begin, End;
    forall u: nat | u < |s.workers| ensures WorkerOk(s', u) {
      assert WorkerOk(s, u);
    }
  }

  /** Every interleaving of the workers keeps the invariant. */
  lemma {:induction false} RunInv(s: State, schedule: seq<nat>)
    requires Inv(s)
    ensures Inv(Run(s, schedule))
    decreases |schedule|
  {
    if schedule != [] {
      var n := |schedule| - 1;
      RunInv(s, schedule[..n]);
      StepKeeps(Run(s, schedule[..n]), schedule[n]);
    }
  }

  lemma StepKeeps(s: State, w: nat)
    requires Inv(s)
    ensures Inv(Step(s, w))
  {
    if w < |s.workers| {
      match s.workers[w]
      case Ready => DrawKeeps(s, w);
      case Claimed(k) => if Begin(s, k) < End(s, k) { ExecuteKeeps(s, w); } else { LeaveKeeps(s, w); }
      case Executed(_) => DoneKeeps(s, w);
      case Left =>
    }
  }

  // ---- what the protocol promises -----------------------------------------------------

  /** A work item, scheduled for any number of workers, after any schedule. */
  ghost predicate Reachable(s: State) {
    && s.inner >= 1
    && exists workers: nat, schedule: seq<nat> :: s == Run(Init(s.total, s.inner, workers), schedule)
  }

  lemma ReachableInv(s: State)
    requires Reachable(s)
    ensures Inv(s)
  {
    var workers: nat, schedule: seq<nat> :| s == Run(Init(s.total, s.inner, workers), schedule);
    InitInv(s.total, s.inner, workers);
    RunInv(Init(s.total, s.inner, workers), schedule);
  }

  lemma RunNothing(s: State)
    ensures Run(s, []) == s
  {
  }

  lemma RunSnoc(s: State, schedule: seq<nat>, w: nat)
    ensures Run(s, schedule + [w]) == Step(Run(s, schedule), w)
  {
    assert (schedule + [w])[..|schedule|] == schedule;
  }

  lemma StepReachable(s: State, w: nat)
    requires Reachable(s)
    ensures Reachable(Step(s, w))
  {
    var workers: nat, schedule: seq<nat> :| s == Run(Init(s.total, s.inner, workers), schedule);
    RunSnoc(Init(s.total, s.inner, workers), schedule, w);
    assert Step(s, w) == Run(Init(s.total, s.inner, workers), schedule + [w]);
  }

  predicate ShareIndex(s: State, w: nat, u: nat) {
    && w < |s.workers| && u < |s.workers|
    && Busy(s.workers[w]) && Busy(s.workers[u]) && s.workers[w].k == s.workers[u].k
  }

  /**
   * No iteration runs twice; different indices have disjoint ranges, and no two workers ever
   * hold the same index.
   */
  lemma ExactPartition(s: State, k: nat, l: nat)
    requires Reachable(s)
    ensures |s.counts| == s.total
    ensures forall j: nat :: j < s.total ==> s.counts[j] == if j / s.inner in s.executed then 1 else 0
    ensures k != l ==> End(s, k) <= Begin(s, l) || End(s, l) <= Begin(s, k)
    ensures k < Ranges(s.total, s.inner) ==> Begin(s, k) == k * s.inner < End(s, k) <= s.total
    ensures forall w: nat, u: nat :: ShareIndex(s, w, u) ==> w == u
  {
    ReachableInv(s);
    OneHolder(s);
    RangeIff(s, k);
    if k < l {
      Monotone(k + 1, l, s.inner);
      assert (k + 1) * s.inner == k * s.inner + s.inner;
    } else if l < k {
      Monotone(l + 1, k, s.inner);
      assert (l + 1) * s.inner == l * s.inner + s.inner;
    }
  }

  lemma OneHolder(s: State)
    requires Inv(s)
    ensures forall w: nat, u: nat :: ShareIndex(s, w, u) ==> w == u
  {
    forall w: nat, u: nat | ShareIndex(s, w, u) ensures w == u {
      assert WorkerOk(s, w) && WorkerOk(s, u);
    }
  }

  ghost predicate AllLeft(s: State) {
    forall w: nat :: w < |s.workers| ==> s.workers[w].Left?
  }

  /**
   * The reference count is zero exactly when every worker has left. Then every iteration
   * ran exactly once, in as many ranges as the quotient rounded up, every range is
   * accounted for in the done index, and each worker drew exactly one empty range.
   */
  lemma Quiescence(s: State)
    requires Reachable(s) && |s.workers| >= 1
    ensures s.refCount == 0 <==> AllLeft(s)
    ensures AllLeft(s) ==>
      var c := Ranges(s.total, s.inner);
      && s.doneIndex == 0 && |s.executed| == c && s.workIndex == c + |s.workers|
      && |s.counts| == s.total && (forall j: nat :: j < s.total ==> s.counts[j] == 1)
  {
    ReachableInv(s);
    var n := |s.workers|;
    Below(s.left, n);
    if s.refCount == 0 {
      forall w: nat | w < n ensures s.workers[w].Left? {
        assert WorkerOk(s, w);
      }
    }
    if AllLeft(s) {
      EveryoneGone(s);
    }
  }

  lemma EveryoneGone(s: State)
    requires Inv(s) && |s.workers| >= 1 && AllLeft(s)
    ensures s.refCount == 0
    ensures var c := Ranges(s.total, s.inner);
      && s.doneIndex == 0 && |s.executed| == c && s.workIndex == c + |s.workers|
      && (forall j: nat :: j < s.total ==> s.counts[j] == 1)
  {
    var n, c := |s.workers|, Ranges(s.total, s.inner);
    forall w: nat | w < n ensures w in s.left && w in s.dry {
      assert WorkerOk(s, w);
    }
    Below(s.left, n);
    Below(s.dry, n);
    assert forall k: nat :: k in s.holder ==> false;
    assert forall k: nat :: k < c ==> k in s.finished;
    Below(s.finished, c);
    Below(s.executed, c);
    AllRun(s);
  }

  lemma AllRun(s: State)
    requires Inv(s) && forall k: nat :: k < Ranges(s.total, s.inner) ==> k in s.executed
    ensures forall j: nat :: j < s.total ==> s.counts[j] == 1
  {
    forall j: nat | j < s.total ensures s.counts[j] == 1 {
      InRange(j, j / s.inner, s.inner);
      RangesBounds(s.total, s.inner);
      if j / s.inner >= Ranges(s.total, s.inner) {
        Monotone(Ranges(s.total, s.inner), j / s.inner, s.inner);
      }
    }
  }

  /** Once the reference count is zero no step of any worker touches the work item again. */
  lemma {:induction false} NothingAfterQuiescence(s: State, later: seq<nat>)
    requires Reachable(s) && |s.workers| >= 1 && s.refCount == 0
    ensures Run(s, later) == s
    decreases |later|
  {
    if later != [] {
      NothingAfterQuiescence(s, later[..|later| - 1]);
      Quiescence(s);
    }
  }

  /**
   * The done index counts the ranges not yet accounted for; it reaches zero exactly when
   * all are, and then every iteration has run, whatever the workers still do.
   */
  lemma CompletionCounter(s: State)
    requires Reachable(s)
    ensures s.doneIndex == Ranges(s.total, s.inner) - |s.finished| >= 0
    ensures s.doneIndex == 0 <==> forall k: nat :: k < Ranges(s.total, s.inner) ==> k in s.finished
    ensures s.doneIndex == 0 ==> |s.counts| == s.total && forall j: nat :: j < s.total ==> s.counts[j] == 1
  {
    ReachableInv(s);
    Below(s.finished, Ranges(s.total, s.inner));
    if s.doneIndex == 0 {
      AllRun(s);
    }
  }

  /**
   * The branches that signal completion and that recycle the work item test the value a
   * counter had before its decrement for zero; no schedule ever takes them. The decrement
   * that brings a counter to zero finds it at one.
   */
  lemma GuardedBranchesNeverRun(s: State, w: nat)
    requires Reachable(s) && w < |s.workers|
    ensures s.signalled == 0 && s.recycled == 0
    ensures s.workers[w].Executed? ==> s.doneIndex >= 1 && Step(s, w).doneIndex == s.doneIndex - 1
    ensures Step(s, w).refCount != s.refCount ==> s.refCount >= 1 && Step(s, w).refCount == s.refCount - 1
  {
    ReachableInv(s);
    StepKeeps(s, w);
    Below(Step(s, w).finished, Ranges(s.total, s.inner));
    Below(Step(s, w).left, |s.workers|);
    assert WorkerOk(Step(s, w), w);
  }

  /** No step raises the done index: it reaches zero at most once, and stays there. */
  lemma {:induction false} StaysDone(s: State, later: seq<nat>)
    requires Reachable(s)
    ensures Reachable(Run(s, later)) && 0 <= Run(s, later).doneIndex <= s.doneIndex
    decreases |later|
  {
    hide Reachable;
    if later != [] {
      var n := |later| - 1;
      StaysDone(s, later[..n]);
      StepReachable(Run(s, later[..n]), later[n]);
    }
    CompletionCounter(Run(s, later));
  }

  /** The work index, and every product and sum that a worker forms from the index it drew. */
  lemma WorkIndexBounds(s: State, w: nat)
    requires Reachable(s) && w < |s.workers|
    ensures s.workIndex <= Ranges(s.total, s.inner) + |s.workers|
    ensures Busy(s.workers[w]) ==>
      var k := s.workers[w].k;
      && k < s.workIndex
      && k * s.inner <= s.total + |s.workers| * s.inner - 1
      && Begin(s, k) + s.inner <= s.total + |s.workers| * s.inner
  {
    ReachableInv(s);
    Below(s.dry, |s.workers|);
    assert WorkerOk(s, w);
    RangesBounds(s.total, s.inner);
    Monotone(1, |s.workers|, s.inner);
    if Busy(s.workers[w]) {
      ProductBound(s.workers[w].k, Ranges(s.total, s.inner), |s.workers|, s.inner, s.total);
    }
    hide *;
  }

  lemma ProductBound(k: nat, c: nat, n: nat, inner: nat, total: nat)
    requires k + 1 <= c + n && c * inner < total + inner
    ensures k * inner <= total + n * inner - 1
  {
    Monotone(k + 1, c + n, inner);
    assert (k + 1) * inner == k * inner + inner;
    assert (c + n) * inner == c * inner + n * inner;
  }

  /** A worker's move moves no other worker on. */
  lemma MoveLocal(s: State, w: nat, u: nat)
    requires u < |s.workers| && u != w
    ensures Step(s, w).workers[u] == s.workers[u]
  {
    hide Begin, End, Bump;
  }

  const S32_MAX: nat := 0x7fff_ffff

  /** What the workers have in signed 32-bit integers fits. */
  ghost predicate NoOverflow(s: State) {
    && s.workIndex <= S32_MAX
    && (forall w | 0 <= w < |s.workers| && Busy(s.workers[w]) ::
          s.workers[w].k * s.inner <= S32_MAX && Begin(s, s.workers[w].k) + s.inner <= S32_MAX)
  }

  /** No schedule overflows exactly if the last index that can be drawn, its product and the last sum fit. */
  lemma FitsS32Iff(total: nat, inner: nat, workers: nat)
    requires inner >= 1 && workers >= 1
    ensures (forall schedule: seq<nat> :: NoOverflow(Run(Init(total, inner, workers), schedule)))
      <==> var c := Ranges(total, inner);
           c + workers <= S32_MAX && (c + workers - 1) * inner <= S32_MAX && total + inner <= S32_MAX
  {
    var s0, c := Init(total, inner, workers), Ranges(total, inner);
    if c + workers <= S32_MAX && (c + workers - 1) * inner <= S32_MAX && total + inner <= S32_MAX {
      forall schedule: seq<nat> ensures NoOverflow(Run(s0, schedule)) {
        assert Reachable(Run(s0, schedule));
        Fits(Run(s0, schedule));
      }
    } else {
      var schedule := DrawAll(total, inner, workers);
      LastIndex(Run(s0, schedule));
    }
  }

  lemma Fits(s: State)
    requires Reachable(s) && |s.workers| >= 1
    requires var c, n := Ranges(s.total, s.inner), |s.workers|;
             c + n <= S32_MAX && (c + n - 1) * s.inner <= S32_MAX && s.total + s.inner <= S32_MAX
    ensures NoOverflow(s)
  {
    assert s.inner >= 1;
    hide Reachable, Ranges;
    var last := Ranges(s.total, s.inner) + |s.workers| - 1;
    WorkIndexBounds(s, 0);
    forall w | 0 <= w < |s.workers| && Busy(s.workers[w])
      ensures s.workers[w].k * s.inner <= S32_MAX && Begin(s, s.workers[w].k) + s.inner <= S32_MAX
    {
      WorkIndexBounds(s, w);
      Monotone(s.workers[w].k, last, s.inner);
    }
  }

  /** It suffices that total + workers * inner fits. */
  lemma FitsS32(s: State)
    requires Reachable(s) && |s.workers| >= 1
    requires s.total + |s.workers| * s.inner <= S32_MAX
    ensures NoOverflow(s)
  {
    assert s.inner >= 1;
    hide Reachable, Ranges, NoOverflow;
    RangesBounds(s.total, s.inner);
    SumFits(s.total, s.inner, Ranges(s.total, s.inner), |s.workers|);
    Fits(s);
  }

  lemma SumFits(total: nat, inner: nat, c: nat, n: nat)
    requires inner >= 1 && n >= 1 && c * inner < total + inner && total + n * inner <= S32_MAX
    ensures c + n <= S32_MAX && (c + n - 1) * inner <= S32_MAX && total + inner <= S32_MAX
  {
    assert (c + n - 1) * inner == c * inner + n * inner - inner;
    Monotone(1, n, inner);
    Monotone(1, inner, n);
    assert (total + 1) * inner == total * inner + inner;
    Monotone(1, inner, total);
    if c > total {
      Monotone(total + 1, c, inner);
    }
  }

  /** The state in which every worker has drawn an empty range has the largest values of all. */
  lemma LastIndex(s: State)
    requires s.inner >= 1 && |s.workers| >= 1
    requires s.workIndex == Ranges(s.total, s.inner) + |s.workers|
    requires s.workers[|s.workers| - 1] == Claimed(s.workIndex - 1)
    ensures NoOverflow(s) ==> var c, n := Ranges(s.total, s.inner), |s.workers|;
      c + n <= S32_MAX && (c + n - 1) * s.inner <= S32_MAX && s.total + s.inner <= S32_MAX
  {
    hide Ranges;
    var k := s.workIndex - 1;
    RangesBounds(s.total, s.inner);
    Monotone(Ranges(s.total, s.inner), k, s.inner);
    assert Begin(s, k) == s.total;
    assert Busy(s.workers[|s.workers| - 1]);
  }

  /** Worker 0 runs all ranges, then each worker draws an empty one. */
  lemma DrawAll(total: nat, inner: nat, workers: nat) returns (schedule: seq<nat>)
    requires inner >= 1 && workers >= 1
    ensures var s := Run(Init(total, inner, workers), schedule);
      s.workIndex == Ranges(total, inner) + workers && s.workers[workers - 1] == Claimed(s.workIndex - 1)
  {
    hide Run, Ranges, Begin, End;
    var s0, c := Init(total, inner, workers), Ranges(total, inner);
    RunNothing(s0);
    schedule := [];
    while Run(s0, schedule).workIndex < c
      invariant Run(s0, schedule).workIndex <= c && Run(s0, schedule).workers == s0.workers
      decreases c - Run(s0, schedule).workIndex
    {
      schedule := OneRound(s0, schedule);
    }
    for i := 0 to workers
      invariant Run(s0, schedule).workIndex == c + i
      invariant forall w | i <= w < workers :: Run(s0, schedule).workers[w].Ready?
      invariant i > 0 ==> Run(s0, schedule).workers[i - 1] == Claimed(c + i - 1)
    {
      RunSnoc(s0, schedule, i);
      schedule := schedule + [i];
    }
  }

  /** Worker 0 draws a range, runs it and counts it off. */
  lemma OneRound(s0: State, schedule: seq<nat>) returns (longer: seq<nat>)
    requires s0.inner >= 1 && |s0.workers| >= 1 && Run(s0, schedule).workers[0].Ready?
    requires Run(s0, schedule).workIndex < Ranges(s0.total, s0.inner)
    ensures Run(s0, longer).workIndex == Run(s0, schedule).workIndex + 1
    ensures Run(s0, longer).workers == Run(s0, schedule).workers
  {
    hide Run, Ranges, Begin, End, Bump;
    RangeIff(s0, Run(s0, schedule).workIndex);
    longer := schedule;
    SameRanges(s0, Run(s0, schedule), Run(s0, schedule).workIndex);
    RunSnoc(s0, longer, 0);
    longer := longer + [0];
    SameRanges(s0, Run(s0, longer), Run(s0, schedule).workIndex);
    RunSnoc(s0, longer, 0);
    longer := longer + [0];
    RunSnoc(s0, longer, 0);
    longer := longer + [0];
    assert Run(s0, longer).workers == Run(s0, schedule).workers;
  }

  lemma SameRanges(s: State, s': State, k: nat)
    requires s'.total == s.total && s'.inner == s.inner
    ensures Begin(s', k) == Begin(s, k) && End(s', k) == End(s, k)
  {
  }

  // ---- a loop of no iterations --------------------------------------------------------

  /** What `s_schedule_for` makes of length 0: no iterations, and a done index of 1 all the same. */
  function EmptyFor(workers: nat): State {
    State(0, 0, 0, 1, workers, seq(workers, i => Ready), [], {}, {}, map[], {}, {}, 0, 0)
  }

  /** No schedule brings that done index down, and nothing ever runs. */
  lemma {:induction false} EmptyForNeverDone(workers: nat, schedule: seq<nat>)
    ensures var s := Run(EmptyFor(workers), schedule);
      && s.doneIndex == 1 && s.executed == {} && s.total == 0
      && forall w | 0 <= w < |s.workers| :: !s.workers[w].Executed?
    decreases |schedule|
  {
    if schedule != [] {
      EmptyForNeverDone(workers, schedule[..|schedule| - 1]);
    }
  }
}
