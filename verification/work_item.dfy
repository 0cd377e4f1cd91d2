// A work item of c_job.cpp as an object, and the loop of `s_worker_thread` on it. Each
// access of a shared counter is mirrored by a step of the ParallelFor protocol.
module WorkItem {
  import opened Tickets
  import P = ParallelFor

  class Work {
    var workIndex: nat
    var doneIndex: int
    var refCount: int
    const total: nat
    const inner: nat
    const counts: array<nat>     // what the user's job saw: how often each iteration was run
    var signalled: nat           // how often the completion branch was taken
    var recycled: nat            // how often the reclamation branch was taken
    ghost var model: P.State

    /** The counters are those of a reachable state of the protocol. */
    ghost predicate Valid()
      reads this, counts
    {
      && P.Reachable(model)
      && model.total == total && model.inner == inner >= 1
      && workIndex == model.workIndex && doneIndex == model.doneIndex && refCount == model.refCount
      && counts[..] == model.counts
      && signalled == model.signalled && recycled == model.recycled
    }

    /** s_schedule_parallel for `workers` workers. */
    constructor Parallel(total: nat, inner: nat, workers: nat)
      requires inner >= 1
      ensures Valid() && fresh(counts) && model == P.Init(total, inner, workers)
    {
      this.total, this.inner := total, inner;
      workIndex := 0;
      doneIndex := (total + (inner - 1)) / inner;
      refCount := workers;
      signalled, recycled := 0, 0;
      counts := new nat[total](j => 0);
      model := P.Init(total, inner, workers);
      new;
      assert model == P.Run(P.Init(total, inner, workers), []);
    }

    /** s_schedule_for, and with length 1 s_schedule_single: one range, a done index of 1. */
    constructor For(length: nat, workers: nat)
      requires length >= 1
      ensures Valid() && fresh(counts) && model == P.Init(length, length, workers)
    {
      this.total, this.inner := length, length;
      workIndex := 0;
      doneIndex := 1;
      refCount := workers;
      signalled, recycled := 0, 0;
      counts := new nat[length](j => 0);
      model := P.Init(length, length, workers);
      new;
      P.OneRange(length);
      assert model == P.Run(P.Init(length, length, workers), []);
    }

    /** fetch_add on the work index. */
    method Draw(ghost w: nat) returns (k: nat)
      requires Valid() && w < |model.workers| && model.workers[w].Ready?
      modifies this
      ensures Valid() && model == P.Step(old(model), w)
      ensures k == old(workIndex) && workIndex == k + 1 && model.workers == old(model.workers)[w := P.Claimed(k)]
    {
      k := workIndex;
      workIndex := k + 1;
      P.StepReachable(model, w);
      hide P.Reachable;
      model := P.Step(model, w);
    }

    /** The user's job_execute, which is told to run iterations [from, to). */
    method Execute(ghost w: nat, from: nat, to: nat)
      requires Valid() && w < |model.workers| && model.workers[w].Claimed?
      requires from == P.Begin(model, model.workers[w].k) < to == P.End(model, model.workers[w].k)
      modifies this`model, counts
      ensures Valid() && model == P.Step(old(model), w)
      ensures model.workers == old(model.workers)[w := P.Executed(old(model.workers[w].k))]
    {
      P.ReachableInv(model);
      P.StepReachable(model, w);
      hide P.Reachable, P.Inv, P.Begin, P.End;
      assert counts.Length == total;
      for j := from to to
        invariant forall i | 0 <= i < counts.Length ::
                    counts[i] == old(counts[i]) + if from <= i < j then 1 else 0
        modifies counts
      {
        counts[j] := counts[j] + 1;
      }
      model := P.Step(model, w);
      assert counts[..] == P.Bump(old(counts[..]), from, to);
    }

    /** fetch_sub on the done index, and the branch that tests what it returns. */
    method CountDone(ghost w: nat)
      requires Valid() && w < |model.workers| && model.workers[w].Executed?
      modifies this
      ensures Valid() && model == P.Step(old(model), w) && workIndex == old(workIndex)
      ensures model.workers == old(model.workers)[w := P.Ready]
    {
      var done := doneIndex;
      doneIndex := done - 1;
      if done == 0 {
        signalled := signalled + 1;
      }
      P.StepReachable(model, w);
      hide P.Reachable;
      model := P.Step(model, w);
    }

    /** fetch_sub on the reference count, and the branch that tests what it returns. */
    method Leave(ghost w: nat)
      requires Valid() && w < |model.workers| && model.workers[w].Claimed?
      requires P.Begin(model, model.workers[w].k) >= P.End(model, model.workers[w].k)
      modifies this
      ensures Valid() && model == P.Step(old(model), w)
      ensures model.workers == old(model.workers)[w := P.Left]
    {
      var refs := refCount;
      refCount := refs - 1;
      if refs == 0 {
        recycled := recycled + 1;
      }
      P.StepReachable(model, w);
      hide P.Reachable;
      model := P.Step(model, w);
    }

    /**
     * The loop of one worker on this work item, no other worker interleaving: a schedule of
     * the protocol in which only this worker moves, at the end of which it has left.
     */
    method RunWorker(w: nat) returns (ghost schedule: seq<nat>)
      requires Valid() && w < |model.workers| && model.workers[w].Ready?
      modifies this, counts
      ensures Valid() && model == P.Run(old(model), schedule) && forall u | u in schedule :: u == w
      ensures model.workers == old(model.workers)[w := P.Left]
    {
      hide P.Reachable, P.Step, P.Bump, P.Run, P.Min, P.Ranges;
      P.RunNothing(model);
      schedule := [];
      ghost var start := model;
      while true
        invariant Valid() && w < |model.workers| && model.workers == start.workers
        invariant model == P.Run(start, schedule) && forall u | u in schedule :: u == w
        decreases P.Ranges(total, inner) - workIndex
      {
        P.RangeIff(model, workIndex);
        var k := Draw(w);
        P.RunSnoc(start, schedule, w);
        schedule := schedule + [w];

        var begin := P.Min(k * inner, total);
        var end := P.Min(begin + inner, total);
        if begin >= end {
          Leave(w);
          P.RunSnoc(start, schedule, w);
          schedule := schedule + [w];
          return;
        }
        Execute(w, begin, end);
        P.RunSnoc(start, schedule, w);
        schedule := schedule + [w];
        CountDone(w);
        P.RunSnoc(start, schedule, w);
        schedule := schedule + [w];
      }
    }

    /** The workers one after the other: every iteration has run once and nothing is outstanding. */
    method RunAll(workers: nat)
      requires Valid() && workers == |model.workers| >= 1
      requires forall w | 0 <= w < workers :: model.workers[w].Ready?
      modifies this, counts
      ensures Valid() && doneIndex == 0 && refCount == 0 && signalled == 0 && recycled == 0
      ensures forall j | 0 <= j < counts.Length :: counts[j] == 1
    {
      for w := 0 to workers
        invariant Valid() && |model.workers| == workers
        invariant forall u | 0 <= u < workers :: if u < w then model.workers[u].Left? else model.workers[u].Ready?
      {
        ghost var schedule := RunWorker(w);
      }
      P.Quiescence(model);
      P.GuardedBranchesNeverRun(model, 0);
    }
  }
}
