// The tree of groups and jobs that the graph operations of c_job.cpp build, as a value.
module GroupTree {
  type Job = nat

  /** Groups and nodes are named by the order of their creation; the root is group 0. */
  datatype GroupSpec = GroupSpec(name: string, parent: nat, children: seq<nat>, jobs: seq<nat>)

  datatype NodeSpec = NodeSpec(job: Job, group: nat)

  datatype Tree = Tree(groups: seq<GroupSpec>, nodes: seq<NodeSpec>, current: nat)

  /**
   * The children of a group name it as their parent and its jobs as their group; they are
   * listed once, in the order of creation.
   */
  ghost predicate WellFormed(t: Tree) {
    var n := |t.groups|;
    && t.current < n && n >= 1
    && t.groups[0].parent == 0
    && (forall k | 0 <= k < |t.nodes| :: t.nodes[k].group < n)
    && (forall g | 0 <= g < n :: t.groups[g].parent < n && (g > 0 ==> t.groups[g].parent < g))
    && (forall g, i | 0 <= g < n && 0 <= i < |t.groups[g].children| ::
          var c := t.groups[g].children[i]; 0 < c < n && t.groups[c].parent == g)
    && (forall g, i, j | 0 <= g < n && 0 <= i < j < |t.groups[g].children| ::
          t.groups[g].children[i] < t.groups[g].children[j])
    && (forall g, i | 0 <= g < n && 0 <= i < |t.groups[g].jobs| ::
          var k := t.groups[g].jobs[i]; k < |t.nodes| && t.nodes[k].group == g)
    && (forall g, i, j | 0 <= g < n && 0 <= i < j < |t.groups[g].jobs| ::
          t.groups[g].jobs[i] < t.groups[g].jobs[j])
  }

  /** Every group but the root is listed by its parent, and every job by its group. */
  ghost predicate Complete(t: Tree)
    requires WellFormed(t)
  {
    && (forall c: nat :: 0 < c < |t.groups| ==> ListedChild(t, c))
    && (forall k: nat :: k < |t.nodes| ==> ListedJob(t, k))
  }

  ghost predicate ListedChild(t: Tree, c: nat)
    requires WellFormed(t) && c < |t.groups|
  {
    c in t.groups[t.groups[c].parent].children
  }

  ghost predicate ListedJob(t: Tree, k: nat)
    requires WellFormed(t) && k < |t.nodes|
  {
    k in t.groups[t.nodes[k].group].jobs
  }

  function Reset(): Tree {
    Tree([GroupSpec("main", 0, [], [])], [], 0)
  }

  /** A new last child of the current group, which becomes the current group. */
  function PushGroup(t: Tree, name: string): Tree
    requires t.current < |t.groups|
  {
    var n, g := |t.groups|, t.groups[t.current];
    Tree(t.groups[t.current := g.(children := g.children + [n])] + [GroupSpec(name, t.current, [], [])],
         t.nodes, n)
  }

  function PopGroup(t: Tree): Tree
    requires t.current < |t.groups|
  {
    t.(current := t.groups[t.current].parent)
  }

  /** A new last job of the current group. */
  function AddJob(t: Tree, job: Job): Tree
    requires t.current < |t.groups|
  {
    var g := t.groups[t.current];
    t.(groups := t.groups[t.current := g.(jobs := g.jobs + [|t.nodes|])],
       nodes := t.nodes + [NodeSpec(job, t.current)])
  }

  lemma PushGroupWellFormed(t: Tree, name: string)
    requires WellFormed(t)
    ensures WellFormed(PushGroup(t, name))
  {
  }

  lemma AddJobWellFormed(t: Tree, job: Job)
    requires WellFormed(t)
    ensures WellFormed(AddJob(t, job))
  {
  }

  /** Whoever is listed stays listed if parents stand and lists only grow. */
  lemma StaysListed(t: Tree, t': Tree)
    requires WellFormed(t) && WellFormed(t') && Complete(t)
    requires |t.groups| <= |t'.groups| && t.nodes <= t'.nodes
    requires forall g | 0 <= g < |t.groups| ::
      && t'.groups[g].parent == t.groups[g].parent
      && t.groups[g].children <= t'.groups[g].children && t.groups[g].jobs <= t'.groups[g].jobs
    ensures forall c: nat :: 0 < c < |t.groups| ==> ListedChild(t', c)
    ensures forall k: nat :: k < |t.nodes| ==> ListedJob(t', k)
  {
    forall c: nat | 0 < c < |t.groups| ensures ListedChild(t', c) {
      var p := t.groups[c].parent;
      assert p < |t.groups|;
      hide WellFormed;
      assert ListedChild(t, c);
      assert c in t.groups[p].children;
    }
    forall k: nat | k < |t.nodes| ensures ListedJob(t', k) {
      var p := t.nodes[k].group;
      assert p < |t.groups| && t'.nodes[k] == t.nodes[k];
      hide WellFormed;
      assert ListedJob(t, k);
      assert k in t.groups[p].jobs;
    }
  }

  lemma PushGroupComplete(t: Tree, name: string)
    requires WellFormed(t) && Complete(t) && WellFormed(PushGroup(t, name))
    ensures Complete(PushGroup(t, name))
  {
    assert t.current < |t.groups|;
    hide WellFormed;
    var t' := PushGroup(t, name);
    StaysListed(t, t');
    assert ListedChild(t', |t.groups|);
  }

  lemma AddJobComplete(t: Tree, job: Job)
    requires WellFormed(t) && Complete(t) && WellFormed(AddJob(t, job))
    ensures Complete(AddJob(t, job))
  {
    assert t.current < |t.groups|;
    hide WellFormed;
    var t' := AddJob(t, job);
    StaysListed(t, t');
    assert ListedJob(t', |t.nodes|);
  }

  datatype Op = OpPush(name: string) | OpPop | OpJob(job: Job)

  function Apply(t: Tree, op: Op): (t': Tree)
    requires WellFormed(t)
    ensures WellFormed(t')
  {
    match op
    case OpPush(name) => PushGroupWellFormed(t, name); PushGroup(t, name)
    case OpPop => PopGroup(t)
    case OpJob(job) => AddJobWellFormed(t, job); AddJob(t, job)
  }

  /** The tree after any operations on a graph that was reset. */
  function Build(ops: seq<Op>): (t: Tree)
    ensures WellFormed(t)
  {
    if ops == [] then Reset() else Apply(Build(ops[..|ops| - 1]), ops[|ops| - 1])
  }

  lemma BuildNothing()
    ensures Build([]) == Reset()
  {
  }

  lemma BuildSnoc(ops: seq<Op>, i: nat)
    requires i < |ops|
    ensures Build(ops[..i + 1]) == Apply(Build(ops[..i]), ops[i])
  {
    hide WellFormed, Apply;
    assert ops[..i + 1][..i] == ops[..i];
  }

  /** After any operations each group and each job is in exactly the list it belongs to. */
  lemma {:induction false} BuildComplete(ops: seq<Op>)
    ensures Complete(Build(ops))
  {
    if ops != [] {
      var t := Build(ops[..|ops| - 1]);
      BuildComplete(ops[..|ops| - 1]);
      hide WellFormed;
      match ops[|ops| - 1]
      case OpPush(name) => PushGroupWellFormed(t, name); PushGroupComplete(t, name);
      case OpPop => PopComplete(t);
      case OpJob(job) => AddJobWellFormed(t, job); AddJobComplete(t, job);
    }
  }

  lemma PopComplete(t: Tree)
    requires WellFormed(t) && Complete(t)
    ensures WellFormed(PopGroup(t)) && Complete(PopGroup(t))
  {
    var t' := PopGroup(t);
    forall c: nat | 0 < c < |t.groups| ensures ListedChild(t', c) {
      assert ListedChild(t, c);
    }
    forall k: nat | k < |t.nodes| ensures ListedJob(t', k) {
      assert ListedJob(t, k);
    }
  }

  // ---- where a pop leads, and where groups and jobs go --------------------------------

  /** The group k levels above g. */
  function Up(t: Tree, g: nat, k: nat): nat
    requires WellFormed(t) && g < |t.groups|
    decreases k
  {
    if k == 0 then g else Up(t, t.groups[g].parent, k - 1)
  }

  /** How many more groups were pushed than popped. */
  function Depth(ops: seq<Op>): int {
    if ops == [] then 0
    else
      var n := |ops| - 1;
      Depth(ops[..n]) + Change(ops[n])
  }

  function Change(op: Op): int {
    match op
    case OpPush(_) => 1
    case OpPop => -1
    case OpJob(_) => 0
  }

  /** No prefix pops more than it pushed. */
  ghost predicate Nested(ops: seq<Op>) {
    forall k | 0 <= k <= |ops| :: Depth(ops[..k]) >= 0
  }

  /** Neither a push nor a job changes who is above an existing group. */
  lemma {:induction false} UpStays(t: Tree, t': Tree, g: nat, k: nat)
    requires WellFormed(t) && WellFormed(t') && g < |t.groups| <= |t'.groups|
    requires forall i | 0 <= i < |t.groups| :: t'.groups[i].parent == t.groups[i].parent
    ensures Up(t', g, k) == Up(t, g, k)
    decreases k
  {
    if k > 0 {
      UpStays(t, t', t.groups[g].parent, k - 1);
    }
  }

  /** After nested operations the group that was current is as far up as groups were pushed and not popped. */
  lemma {:induction false} NestedUp(ops: seq<Op>, more: seq<Op>)
    requires Nested(more)
    ensures Depth(more) >= 0
    ensures var t := Build(ops + more); Up(t, t.current, Depth(more)) == Build(ops).current
    decreases |more|
  {
    hide WellFormed, Apply, Build;
    NestedDepth(more);
    if more == [] {
      assert ops + more == ops;
    } else {
      hide Up, Nested;
      var n := |more| - 1;
      NestedUp(ops, more[..n]);
      BuildMore(ops, more);
      StepUp(Build(ops + more[..n]), more[n], Depth(more[..n]));
    }
  }

  lemma NestedDepth(ops: seq<Op>)
    requires Nested(ops)
    ensures Depth(ops) >= 0
    ensures ops != [] ==> Nested(ops[..|ops| - 1])
  {
    assert ops[..|ops|] == ops;
    if ops != [] {
      NestedPrefix(ops);
    }
  }

  lemma NestedPrefix(ops: seq<Op>)
    requires Nested(ops) && ops != []
    ensures Nested(ops[..|ops| - 1])
  {
    var before := ops[..|ops| - 1];
    forall k | 0 <= k <= |before| ensures Depth(before[..k]) >= 0 {
      assert before[..k] == ops[..k];
    }
  }

  lemma BuildMore(ops: seq<Op>, more: seq<Op>)
    requires more != []
    ensures var n := |more| - 1;
            Build(ops + more) == Apply(Build(ops + more[..n]), more[n])
  {
    hide Build, WellFormed, Apply;
    var n := |more| - 1;
    BuildSnoc(ops + more, |ops| + n);
    assert (ops + more)[..|ops| + n] == ops + more[..n];
    assert (ops + more)[..|ops| + n + 1] == ops + more;
  }

  lemma StepUp(t: Tree, op: Op, d: nat)
    requires WellFormed(t) && (op.OpPop? ==> d > 0)
    ensures var t', d' := Apply(t, op), d + Change(op);
            Up(t', t'.current, d') == Up(t, t.current, d)
  {
    var t' := Apply(t, op);
    match op
    case OpPush(name) => UpStays(t, t', t.current, d);
    case OpPop => UpStays(t, t', t'.current, d - 1);
    case OpJob(job) => UpStays(t, t', t.current, d);
  }

  /** A pop undoes a push: operations that pop exactly what they push come back to the group they started from. */
  lemma PopUndoesPush(ops: seq<Op>, more: seq<Op>)
    requires Nested(more) && Depth(more) == 0
    ensures Build(ops + more).current == Build(ops).current
  {
    NestedUp(ops, more);
  }

  /** In particular a group pushed, filled by nested operations, and popped. */
  lemma PushFillPop(ops: seq<Op>, name: string, inside: seq<Op>)
    requires Nested(inside) && Depth(inside) == 0
    ensures Build(ops + ([OpPush(name)] + inside + [OpPop])).current == Build(ops).current
  {
    var more := [OpPush(name)] + inside + [OpPop];
    forall k | 0 <= k <= |more| ensures Depth(more[..k]) == if 1 <= k < |more| then 1 + Depth(inside[..k - 1]) else 0 {
      DepthInside(name, inside, k);
    }
    assert more[..|more|] == more;
    PopUndoesPush(ops, more);
  }

  lemma {:induction false} DepthInside(name: string, inside: seq<Op>, k: nat)
    requires Depth(inside) == 0 && k <= |inside| + 2
    ensures var more := [OpPush(name)] + inside + [OpPop];
      Depth(more[..k]) == if 1 <= k < |more| then 1 + Depth(inside[..k - 1]) else 0
    decreases k
  {
    var more := [OpPush(name)] + inside + [OpPop];
    if k > 0 {
      DepthInside(name, inside, k - 1);
      assert more[..k][..k - 1] == more[..k - 1];
      if 2 <= k <= |inside| + 1 {
        assert inside[..k - 1][..k - 2] == inside[..k - 2];
      } else if k == |inside| + 2 {
        assert inside[..|inside|] == inside;
      }
    }
  }

  /** A pop changes nothing but which group is current, and a push then popped leaves the new group behind. */
  lemma PopOnlyMoves(t: Tree, name: string)
    requires WellFormed(t)
    ensures PopGroup(t) == t.(current := t.groups[t.current].parent)
    ensures PopGroup(PushGroup(t, name)) == PushGroup(t, name).(current := t.current)
  {
  }

  /** How many groups, or jobs, the operations make. */
  function Pushes(ops: seq<Op>): nat {
    if ops == [] then 0 else Pushes(ops[..|ops| - 1]) + if ops[|ops| - 1].OpPush? then 1 else 0
  }

  function Additions(ops: seq<Op>): nat {
    if ops == [] then 0 else Additions(ops[..|ops| - 1]) + if ops[|ops| - 1].OpJob? then 1 else 0
  }

  lemma {:induction false} Counts(ops: seq<Op>)
    ensures |Build(ops).groups| == 1 + Pushes(ops) && |Build(ops).nodes| == Additions(ops)
  {
    hide WellFormed, Apply;
    if ops != [] {
      var n := |ops| - 1;
      Counts(ops[..n]);
      ApplyGrows(Build(ops[..n]), ops[n]);
    }
  }

  /** What an operation makes, and that it leaves what there is where it is. */
  lemma ApplyGrows(t: Tree, op: Op)
    requires WellFormed(t)
    ensures var t', n, k := Apply(t, op), |t.groups|, |t.nodes|;
      && |t'.groups| == n + (if op.OpPush? then 1 else 0) && |t'.nodes| == k + (if op.OpJob? then 1 else 0)
      && (forall g | 0 <= g < n :: t'.groups[g].name == t.groups[g].name && t'.groups[g].parent == t.groups[g].parent)
      && t.nodes <= t'.nodes
      && (op.OpPush? ==> t'.groups[n].name == op.name && t'.groups[n].parent == t.current)
      && (op.OpJob? ==> t'.nodes[k] == NodeSpec(op.job, t.current))
  {
    assert t.current < |t.groups|;
    hide WellFormed;
  }

  /**
   * The group of the p-th operation has its name and hangs under the group that was current
   * then; a job of the p-th operation belongs to the group that was current then. No later
   * operation changes that.
   */
  lemma {:induction false} WhereItWent(ops: seq<Op>, p: nat)
    requires p < |ops|
    ensures var t, g := Build(ops), 1 + Pushes(ops[..p]);
      ops[p].OpPush? ==> g < |t.groups| && t.groups[g].name == ops[p].name && t.groups[g].parent == Build(ops[..p]).current
    ensures var t, k := Build(ops), Additions(ops[..p]);
      ops[p].OpJob? ==> k < |t.nodes| && t.nodes[k] == NodeSpec(ops[p].job, Build(ops[..p]).current)
    decreases |ops|
  {
    hide WellFormed, Apply, Build;
    var n := |ops| - 1;
    var before := ops[..n];
    BuildSnoc(ops, n);
    assert ops[..n + 1] == ops;
    ApplyGrows(Build(before), ops[n]);
    Counts(before);
    if p < n {
      assert before[..p] == ops[..p];
      WhereItWent(before, p);
    }
  }
}
