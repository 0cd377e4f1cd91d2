// The job graph of c_job.cpp: groups and the nodes of their jobs, linked into circular
// doubly linked lists that the graph operations extend in place.
module JobGraph {
  import T = GroupTree

  class Node {
    var job: T.Job
    var group: Group
    var next: Node
    var prev: Node

    /** setup */
    constructor (group: Group, job: T.Job)
      ensures this.group == group && this.job == job && next == this && prev == this
    {
      this.group, this.job := group, job;
      next, prev := this, this;
    }

    /** push_back: `ring` is the list that starts here. */
    method PushBack(node: Node, ghost ring: seq<Node>)
      requires IsNodeRing(ring) && ring[0] == this && node !in ring
      modifies node`next, node`prev, this`prev, prev`next
      ensures IsNodeRing(ring + [node])
    {
      ghost var n := |ring|;
      assert ring[0].prev == ring[n - 1];
      node.next := this;
      node.prev := prev;
      prev.next := node;
      prev := node;
      ghost var longer := ring + [node];
      forall i | 0 <= i < n ensures longer[i] == ring[i] && (i + 1 < n ==> ring[i] != ring[n - 1]) {
      }
    }
  }

  /** A circular doubly linked list of distinct nodes, from its first element on. */
  ghost predicate IsNodeRing(ring: seq<Node>)
    reads ring`next, ring`prev
  {
    var n := |ring|;
    && n > 0
    && ring[n - 1].next == ring[0] && ring[0].prev == ring[n - 1]
    && (forall i | 0 <= i < n - 1 :: ring[i].next == ring[i + 1])
    && (forall i | 0 < i < n :: ring[i].prev == ring[i - 1])
    && (forall i, j | 0 <= i < j < n :: ring[i] != ring[j])
  }

  /** The node reached from `x` by following next, or prev, k times. */
  function Forward(ring: seq<Node>, x: Node, k: nat): Node
    requires x in ring && IsNodeRing(ring)
    reads ring`next, ring`prev
  {
    if k == 0 then x else NextInRing(ring, x); Forward(ring, x.next, k - 1)
  }

  function Backward(ring: seq<Node>, x: Node, k: nat): Node
    requires x in ring && IsNodeRing(ring)
    reads ring`next, ring`prev
  {
    if k == 0 then x else NextInRing(ring, x); Backward(ring, x.prev, k - 1)
  }

  lemma NextInRing(ring: seq<Node>, x: Node)
    requires x in ring && IsNodeRing(ring)
    ensures x.next in ring && x.prev in ring
  {
    var i :| 0 <= i < |ring| && ring[i] == x;
    if i > 0 {
      assert ring[i].prev == ring[i - 1];
    }
    if i < |ring| - 1 {
      assert ring[i].next == ring[i + 1];
    }
  }

  /** Walking a list forward from its start meets it in order, and a full turn comes back. */
  lemma {:induction false} WalkForward(ring: seq<Node>, i: nat, k: nat)
    requires IsNodeRing(ring) && i + k <= |ring| && i < |ring|
    ensures Forward(ring, ring[i], k) == if i + k < |ring| then ring[i + k] else ring[0]
    decreases k
  {
    if k > 0 {
      if i + 1 < |ring| {
        assert ring[i].next == ring[i + 1];
        WalkForward(ring, i + 1, k - 1);
      }
    }
  }

  /** Walking backward from the start meets it in reverse order, last element first. */
  lemma {:induction false} WalkBackward(ring: seq<Node>, k: nat)
    requires IsNodeRing(ring) && k <= |ring|
    ensures Backward(ring, ring[0], k) == if k == 0 then ring[0] else ring[|ring| - k]
  {
    if k > 0 {
      assert ring[0].prev == ring[|ring| - 1];
      BackFrom(ring, |ring| - 1, k - 1);
    }
  }

  lemma {:induction false} BackFrom(ring: seq<Node>, i: nat, k: nat)
    requires IsNodeRing(ring) && k <= i < |ring|
    ensures Backward(ring, ring[i], k) == ring[i - k]
    decreases k
  {
    if k > 0 {
      assert ring[i].prev == ring[i - 1];
      BackFrom(ring, i - 1, k - 1);
    }
  }

  class Group {
    var name: string
    var parent: Group
    var child: Group?
    var jobs: Node?
    var next: Group
    var prev: Group

    /** setup of a group whose parent is another one. */
    constructor (parent: Group, name: string)
      ensures this.parent == parent && this.name == name && child == null && jobs == null
      ensures next == this && prev == this
    {
      this.parent, this.name, child, jobs := parent, name, null, null;
      next, prev := this, this;
    }

    /** setup of the root, which is its own parent. */
    constructor Root()
      ensures parent == this && name == "main" && child == null && jobs == null
      ensures next == this && prev == this
    {
      parent, name, child, jobs := this, "main", null, null;
      next, prev := this, this;
    }

    /** add_sibling: `ring` is the list that starts here. */
    method AddSibling(group: Group, ghost ring: seq<Group>)
      requires IsGroupRing(ring) && ring[0] == this && group !in ring
      modifies group`next, group`prev, this`prev, prev`next
      ensures IsGroupRing(ring + [group])
    {
      ghost var n := |ring|;
      assert ring[0].prev == ring[n - 1];
      group.next := this;
      group.prev := prev;
      prev.next := group;
      prev := group;
      ghost var longer := ring + [group];
      forall i | 0 <= i < n ensures longer[i] == ring[i] && (i + 1 < n ==> ring[i] != ring[n - 1]) {
      }
    }

    /** add_child: `ring` is the list of children there are. */
    method AddChild(group: Group, ghost ring: seq<Group>)
      requires KidsOk(child, ring)
      requires group !in ring && group.next == group && group.prev == group
      modifies this`child, group`next, group`prev, ring
      ensures forall x | x in ring && x != this :: x.child == old(x.child)
      ensures forall x | x in ring :: x.name == old(x.name) && x.parent == old(x.parent) && x.jobs == old(x.jobs)
      ensures KidsOk(child, ring + [group])
    {
      if child == null {
        child := group;
      } else {
        assert child.prev == ring[|ring| - 1];
        child.AddSibling(group, ring);
      }
    }

    /** add_job: `ring` is the list of jobs there are. */
    method AddJob(node: Node, ghost ring: seq<Node>)
      requires JobsOk(jobs, ring)
      requires node !in ring && node.next == node && node.prev == node
      modifies this`jobs, node`next, node`prev, ring
      ensures forall x | x in ring :: x.job == old(x.job) && x.group == old(x.group)
      ensures JobsOk(jobs, ring + [node])
    {
      if jobs == null {
        jobs := node;
        return;
      }
      assert jobs.prev == ring[|ring| - 1];
      jobs.PushBack(node, ring);
    }
  }

  /** A circular doubly linked list of distinct groups, from its first element on. */
  ghost predicate IsGroupRing(ring: seq<Group>)
    reads ring`next, ring`prev
  {
    var n := |ring|;
    && n > 0
    && ring[n - 1].next == ring[0] && ring[0].prev == ring[n - 1]
    && (forall i | 0 <= i < n - 1 :: ring[i].next == ring[i + 1])
    && (forall i | 0 < i < n :: ring[i].prev == ring[i - 1])
    && (forall i, j | 0 <= i < j < n :: ring[i] != ring[j])
  }

  /** The group reached from `x` by following next, or prev, k times. */
  function GroupForward(ring: seq<Group>, x: Group, k: nat): Group
    requires x in ring && IsGroupRing(ring)
    reads ring`next, ring`prev
  {
    if k == 0 then x else NextGroupInRing(ring, x); GroupForward(ring, x.next, k - 1)
  }

  function GroupBackward(ring: seq<Group>, x: Group, k: nat): Group
    requires x in ring && IsGroupRing(ring)
    reads ring`next, ring`prev
  {
    if k == 0 then x else NextGroupInRing(ring, x); GroupBackward(ring, x.prev, k - 1)
  }

  lemma NextGroupInRing(ring: seq<Group>, x: Group)
    requires x in ring && IsGroupRing(ring)
    ensures x.next in ring && x.prev in ring
  {
    var i :| 0 <= i < |ring| && ring[i] == x;
    if i > 0 {
      assert ring[i].prev == ring[i - 1];
    }
    if i < |ring| - 1 {
      assert ring[i].next == ring[i + 1];
    }
  }

  lemma {:induction false} GroupWalkForward(ring: seq<Group>, i: nat, k: nat)
    requires IsGroupRing(ring) && i + k <= |ring| && i < |ring|
    ensures GroupForward(ring, ring[i], k) == if i + k < |ring| then ring[i + k] else ring[0]
    decreases k
  {
    if k > 0 {
      if i + 1 < |ring| {
        assert ring[i].next == ring[i + 1];
        GroupWalkForward(ring, i + 1, k - 1);
      }
    }
  }

  lemma {:induction false} GroupWalkBackward(ring: seq<Group>, k: nat)
    requires IsGroupRing(ring) && k <= |ring|
    ensures GroupBackward(ring, ring[0], k) == if k == 0 then ring[0] else ring[|ring| - k]
  {
    if k > 0 {
      assert ring[0].prev == ring[|ring| - 1];
      GroupBackFrom(ring, |ring| - 1, k - 1);
    }
  }

  lemma {:induction false} GroupBackFrom(ring: seq<Group>, i: nat, k: nat)
    requires IsGroupRing(ring) && k <= i < |ring|
    ensures GroupBackward(ring, ring[i], k) == ring[i - k]
    decreases k
  {
    if k > 0 {
      assert ring[i].prev == ring[i - 1];
      GroupBackFrom(ring, i - 1, k - 1);
    }
  }

  ghost function Pick<O>(objects: seq<O>, indices: seq<nat>): (r: seq<O>)
    requires forall i | 0 <= i < |indices| :: indices[i] < |objects|
    ensures |r| == |indices| && forall i | 0 <= i < |r| :: r[i] == objects[indices[i]]
  {
    seq(|indices|, i requires 0 <= i < |indices| => objects[indices[i]])
  }

  /** The objects of a tree, in the order of their creation. */
  ghost predicate Shape(groups: seq<Group>, nodes: seq<Node>, t: T.Tree) {
    && T.WellFormed(t)
    && |groups| == |t.groups| > t.current && |nodes| == |t.nodes|
    && (forall i, j | 0 <= i < j < |groups| :: groups[i] != groups[j])
    && (forall i, j | 0 <= i < j < |nodes| :: nodes[i] != nodes[j])
  }

  ghost function Children(groups: seq<Group>, t: T.Tree, g: nat): (r: seq<Group>)
    requires T.WellFormed(t) && |groups| >= |t.groups| && g < |t.groups|
    ensures |r| == |t.groups[g].children| && forall i | 0 <= i < |r| :: r[i] == groups[t.groups[g].children[i]]
  {
    Pick(groups, t.groups[g].children)
  }

  ghost function Jobs(nodes: seq<Node>, t: T.Tree, g: nat): (r: seq<Node>)
    requires T.WellFormed(t) && |nodes| >= |t.nodes| && g < |t.groups|
    ensures |r| == |t.groups[g].jobs| && forall i | 0 <= i < |r| :: r[i] == nodes[t.groups[g].jobs[i]]
  {
    Pick(nodes, t.groups[g].jobs)
  }

  /** The list of children starts at `child` and is circular. */
  ghost predicate KidsOk(child: Group?, kids: seq<Group>)
    reads kids`next, kids`prev
  {
    if kids == [] then child == null else IsGroupRing(kids) && child == kids[0]
  }

  ghost predicate JobsOk(first: Node?, jobs: seq<Node>)
    reads jobs`next, jobs`prev
  {
    if jobs == [] then first == null else IsNodeRing(jobs) && first == jobs[0]
  }

  /** Group g points to its parent, and its lists are circular lists of exactly its children and jobs. */
  ghost predicate GroupOk(groups: seq<Group>, nodes: seq<Node>, t: T.Tree, g: nat)
    requires Shape(groups, nodes, t) && g < |groups|
    reads groups, nodes
  {
    && groups[g].name == t.groups[g].name && groups[g].parent == groups[t.groups[g].parent]
    && KidsOk(groups[g].child, Children(groups, t, g))
    && JobsOk(groups[g].jobs, Jobs(nodes, t, g))
  }

  ghost predicate NodeOk(groups: seq<Group>, nodes: seq<Node>, t: T.Tree, k: nat)
    requires Shape(groups, nodes, t) && k < |nodes|
    reads nodes
  {
    nodes[k].job == t.nodes[k].job && nodes[k].group == groups[t.nodes[k].group]
  }

  /** The linked objects are the tree. */
  ghost predicate Linked(groups: seq<Group>, nodes: seq<Node>, t: T.Tree)
    reads groups, nodes
  {
    && Shape(groups, nodes, t)
    && (forall g: nat :: g < |groups| ==> GroupOk(groups, nodes, t, g))
    && (forall k: nat :: k < |nodes| ==> NodeOk(groups, nodes, t, k))
  }

  /** Two groups have no child in common. */
  lemma OtherChildren(groups: seq<Group>, nodes: seq<Node>, t: T.Tree, g: nat, c: nat)
    requires Shape(groups, nodes, t) && g < |groups| && c < |groups| && g != c
    ensures forall x | x in Children(groups, t, g) :: x in groups && x !in Children(groups, t, c)
  {
    var kids, others := Children(groups, t, g), Children(groups, t, c);
    forall i, j | 0 <= i < |kids| && 0 <= j < |others| ensures kids[i] != others[j] {
      assert t.groups[t.groups[g].children[i]].parent == g;
      assert t.groups[t.groups[c].children[j]].parent == c;
    }
  }

  lemma OtherJobs(groups: seq<Group>, nodes: seq<Node>, t: T.Tree, g: nat, c: nat)
    requires Shape(groups, nodes, t) && g < |groups| && c < |groups| && g != c
    ensures forall x | x in Jobs(nodes, t, g) :: x in nodes && x !in Jobs(nodes, t, c)
  {
    var jobs, others := Jobs(nodes, t, g), Jobs(nodes, t, c);
    forall i, j | 0 <= i < |jobs| && 0 <= j < |others| ensures jobs[i] != others[j] {
      assert t.nodes[t.groups[g].jobs[i]].group == g;
      assert t.nodes[t.groups[c].jobs[j]].group == c;
    }
  }

  lemma ChildrenAmong(groups: seq<Group>, nodes: seq<Node>, t: T.Tree, g: nat)
    requires Shape(groups, nodes, t) && g < |groups|
    ensures forall x | x in Children(groups, t, g) :: x in groups
    ensures forall x | x in Jobs(nodes, t, g) :: x in nodes
  {
  }

  /** A graph that was reset has no lists. */
  lemma RootShape(groups: seq<Group>)
    requires |groups| == 1
    ensures Shape(groups, [], T.Reset())
    ensures Children(groups, T.Reset(), 0) == [] && Jobs([], T.Reset(), 0) == []
  {
  }

  lemma NoLists()
    ensures KidsOk(null, []) && JobsOk(null, [])
  {
  }

  class Graph {
    var current: Group
    ghost var groups: seq<Group>   // in the order of their creation
    ghost var nodes: seq<Node>     // in the order of their creation
    ghost var tree: T.Tree

    ghost predicate Valid()
      reads this, groups, nodes
    {
      Linked(groups, nodes, tree) && current == groups[tree.current]
    }

    /** graph_reset */
    constructor ()
      ensures Valid() && tree == T.Reset() && fresh(groups) && groups == [current] && nodes == []
    {
      var root := new Group.Root();
      current := root;
      groups, nodes, tree := [root], [], T.Reset();
      new;
      hide KidsOk, JobsOk, Children, Jobs, Pick;
      NoLists();
      RootShape(groups);
    }

    /**
     * From the child pointer of group g, next meets the children that the tree lists for it,
     * in order, and returns after a full turn; prev meets them in reverse. No children, no pointer.
     */
    lemma ChildWalks(g: nat, k: nat)
      requires Valid() && g < |groups|
      ensures var kids := Children(groups, tree, g);
        && (kids == [] <==> groups[g].child == null)
        && (kids != [] && k <= |kids| ==>
              && IsGroupRing(kids) && groups[g].child == kids[0]
              && GroupForward(kids, kids[0], k) == (if k < |kids| then kids[k] else kids[0])
              && GroupBackward(kids, kids[0], k) == (if k == 0 then kids[0] else kids[|kids| - k]))
    {
      var kids := Children(groups, tree, g);
      assert GroupOk(groups, nodes, tree, g);
      hide Valid, GroupOk, Children, IsGroupRing;
      if kids != [] && k <= |kids| {
        GroupWalkForward(kids, 0, k);
        GroupWalkBackward(kids, k);
      }
    }

    /** The same for the jobs of group g. */
    lemma JobWalks(g: nat, k: nat)
      requires Valid() && g < |groups|
      ensures var jobs := Jobs(nodes, tree, g);
        && (jobs == [] <==> groups[g].jobs == null)
        && (jobs != [] && k <= |jobs| ==>
              && IsNodeRing(jobs) && groups[g].jobs == jobs[0]
              && Forward(jobs, jobs[0], k) == (if k < |jobs| then jobs[k] else jobs[0])
              && Backward(jobs, jobs[0], k) == (if k == 0 then jobs[0] else jobs[|jobs| - k]))
    {
      var jobs := Jobs(nodes, tree, g);
      assert GroupOk(groups, nodes, tree, g);
      hide Valid, GroupOk, Jobs, IsNodeRing;
      if jobs != [] && k <= |jobs| {
        WalkForward(jobs, 0, k);
        WalkBackward(jobs, k);
      }
    }

    method PopGroup()
      requires Valid()
      modifies this
      ensures Valid() && tree == T.PopGroup(old(tree)) && groups == old(groups) && nodes == old(nodes)
      ensures current == old(current.parent) && tree.groups == old(tree.groups) && tree.nodes == old(tree.nodes)
      ensures old(tree.current) == 0 ==> current == old(current)
    {
      assert GroupOk(groups, nodes, tree, tree.current);
      hide KidsOk, JobsOk;
      current := current.parent;
      tree := T.PopGroup(tree);
      forall g: nat | g < |groups| ensures GroupOk(groups, nodes, tree, g) {
        assert GroupOk(groups, nodes, old(tree), g);
      }
      forall k: nat | k < |nodes| ensures NodeOk(groups, nodes, tree, k) {
        assert NodeOk(groups, nodes, old(tree), k);
      }
    }

    method PushGroup(name: string)
      requires Valid()
      modifies this, groups
      ensures Valid() && tree == T.PushGroup(old(tree), name) && nodes == old(nodes)
      ensures fresh(current) && groups == old(groups) + [current]
    {
      hide GroupOk, NodeOk, T.PushGroup, T.WellFormed;
      var group := NewChild(current, name, groups, nodes, tree);
      PushShape(groups, nodes, tree, name, group);
      current := group;
      tree := T.PushGroup(tree, name);
      groups := groups + [group];
    }

    method AddJob(job: T.Job)
      requires Valid()
      modifies this, groups, nodes
      ensures Valid() && tree == T.AddJob(old(tree), job) && groups == old(groups) && current == old(current)
      ensures |nodes| == |old(nodes)| + 1 && fresh(nodes[|old(nodes)|]) && old(nodes) < nodes
    {
      hide GroupOk, NodeOk, T.AddJob, T.WellFormed;
      var node := NewJob(current, job, groups, nodes, tree);
      JobShape(groups, nodes, tree, job, node);
      tree := T.AddJob(tree, job);
      nodes := nodes + [node];
    }
  }

  /** Group g but for its list of children. */
  ghost predicate OwnOk(groups: seq<Group>, nodes: seq<Node>, t: T.Tree, g: nat)
    requires Shape(groups, nodes, t) && g < |groups|
    reads groups, nodes
  {
    && groups[g].name == t.groups[g].name && groups[g].parent == groups[t.groups[g].parent]
    && JobsOk(groups[g].jobs, Jobs(nodes, t, g))
  }

  /** new_group under the current group, and add_child. */
  method NewChild(current: Group, name: string, ghost gs: seq<Group>, ghost ns: seq<Node>, ghost t: T.Tree)
    returns (group: Group)
    requires Linked(gs, ns, t) && current == gs[t.current]
    modifies gs
    ensures fresh(group) && Linked(gs + [group], ns, T.PushGroup(t, name))
  {
    hide *;
    group := new Group(current, name);
    LinkChild(current, group, gs, ns, t);
    LinkedWithChild(gs, ns, t, name, group);
  }

  /** add_child touches one list of children and nothing else. */
  method LinkChild(current: Group, group: Group, ghost gs: seq<Group>, ghost ns: seq<Node>, ghost t: T.Tree)
    requires Linked(gs, ns, t) && current == gs[t.current]
    requires group !in gs && group.next == group && group.prev == group
    modifies gs, group`next, group`prev
    ensures Shape(gs, ns, t)
    ensures forall g: nat :: g < |gs| ==> OwnOk(gs, ns, t, g)
    ensures forall g: nat :: g < |gs| && g != t.current ==> KidsOk(gs[g].child, Children(gs, t, g))
    ensures KidsOk(current.child, Children(gs, t, t.current) + [group])
    ensures forall k: nat :: k < |ns| ==> NodeOk(gs, ns, t, k)
  {
    hide T.WellFormed, KidsOk, JobsOk, IsGroupRing, IsNodeRing, Pick;
    ghost var c, ring := t.current, Children(gs, t, t.current);
    assert GroupOk(gs, ns, t, c);
    ChildrenAmong(gs, ns, t, c);
    assert current in gs && forall i | 0 <= i < |ring| :: ring[i] in gs;
    current.AddChild(group, ring);
    hide Children, Jobs;
    forall g: nat | g < |gs| ensures OwnOk(gs, ns, t, g) {
      ChildrenAmong(gs, ns, t, g);
      assert old(GroupOk(gs, ns, t, g));
      assert forall x | x in Jobs(ns, t, g) :: x.next == old(x.next) && x.prev == old(x.prev);
    }
    forall g: nat | g < |gs| && g != c ensures KidsOk(gs[g].child, Children(gs, t, g)) {
      OtherChildren(gs, ns, t, g, c);
      assert old(GroupOk(gs, ns, t, g));
      assert forall x | x in Children(gs, t, g) :: x.next == old(x.next) && x.prev == old(x.prev);
    }
    forall k: nat | k < |ns| ensures NodeOk(gs, ns, t, k) {
      assert old(NodeOk(gs, ns, t, k));
    }
  }

  lemma LinkedWithChild(gs: seq<Group>, ns: seq<Node>, t: T.Tree, name: string, group: Group)
    requires Shape(gs, ns, t) && group !in gs
    requires forall g: nat :: g < |gs| ==> OwnOk(gs, ns, t, g)
    requires forall g: nat :: g < |gs| && g != t.current ==> KidsOk(gs[g].child, Children(gs, t, g))
    requires KidsOk(gs[t.current].child, Children(gs, t, t.current) + [group])
    requires forall k: nat :: k < |ns| ==> NodeOk(gs, ns, t, k)
    requires group.name == name && group.parent == gs[t.current] && group.child == null && group.jobs == null
    ensures Linked(gs + [group], ns, T.PushGroup(t, name))
  {
    hide T.WellFormed, T.PushGroup, KidsOk, JobsOk, Children, Jobs, OwnOk, GroupOk, NodeOk;
    var gs', t' := gs + [group], T.PushGroup(t, name);
    forall g: nat | g < |gs| ensures Shape(gs', ns, t') && GroupOk(gs', ns, t', g) {
      assert Children(gs, t, g) + [] == Children(gs, t, g);
      OldGroupOk(gs, ns, t, name, group, g);
    }
    NewGroupOk(gs, ns, t, name, group);
    forall k: nat | k < |ns| ensures Shape(gs', ns, t') && NodeOk(gs', ns, t', k) {
      OldNodeOk(gs, ns, t, name, group, k);
    }
  }

  lemma OldGroupOk(gs: seq<Group>, ns: seq<Node>, t: T.Tree, name: string, group: Group, g: nat)
    requires Shape(gs, ns, t) && group !in gs && g < |gs| && OwnOk(gs, ns, t, g)
    requires KidsOk(gs[g].child, Children(gs, t, g) + if g == t.current then [group] else [])
    ensures Shape(gs + [group], ns, T.PushGroup(t, name)) && GroupOk(gs + [group], ns, T.PushGroup(t, name), g)
  {
    hide T.WellFormed, T.PushGroup, KidsOk, JobsOk, Children, Jobs;
    PushShape(gs, ns, t, name, group);
    assert Children(gs, t, g) + [] == Children(gs, t, g);
  }

  lemma NewGroupOk(gs: seq<Group>, ns: seq<Node>, t: T.Tree, name: string, group: Group)
    requires Shape(gs, ns, t) && group !in gs
    requires group.name == name && group.parent == gs[t.current] && group.child == null && group.jobs == null
    ensures Shape(gs + [group], ns, T.PushGroup(t, name)) && GroupOk(gs + [group], ns, T.PushGroup(t, name), |gs|)
  {
    NoLists();
    hide T.WellFormed, T.PushGroup, KidsOk, JobsOk, Children, Jobs;
    PushShape(gs, ns, t, name, group);
  }

  lemma OldNodeOk(gs: seq<Group>, ns: seq<Node>, t: T.Tree, name: string, group: Group, k: nat)
    requires Shape(gs, ns, t) && group !in gs && k < |ns| && NodeOk(gs, ns, t, k)
    ensures Shape(gs + [group], ns, T.PushGroup(t, name)) && NodeOk(gs + [group], ns, T.PushGroup(t, name), k)
  {
    hide T.WellFormed, T.PushGroup;
    PushShape(gs, ns, t, name, group);
  }

  /** What a pushed group changes in the lists of the tree. */
  lemma PushShape(groups: seq<Group>, nodes: seq<Node>, t: T.Tree, name: string, group: Group)
    requires Shape(groups, nodes, t) && group !in groups
    ensures var t', groups' := T.PushGroup(t, name), groups + [group];
      && Shape(groups', nodes, t')
      && (forall g | 0 <= g < |groups| ::
            t'.groups[g].name == t.groups[g].name && t'.groups[g].parent == t.groups[g].parent < |groups|)
      && (forall g | 0 <= g < |groups| && g != t.current :: Children(groups', t', g) == Children(groups, t, g))
      && (forall g | 0 <= g < |groups| :: Jobs(nodes, t', g) == Jobs(nodes, t, g))
      && Children(groups', t', t.current) == Children(groups, t, t.current) + [group]
      && Children(groups', t', |groups|) == [] && Jobs(nodes, t', |groups|) == []
      && t'.groups[|groups|].name == name && t'.groups[|groups|].parent == t.current && t'.current == |groups|
      && t'.nodes == t.nodes && (forall k | 0 <= k < |nodes| :: t.nodes[k].group < |groups|)
  {
    T.PushGroupWellFormed(t, name);
  }

  /** A node for a job of the current group, and add_job. */
  method NewJob(current: Group, job: T.Job, ghost gs: seq<Group>, ghost ns: seq<Node>, ghost t: T.Tree)
    returns (node: Node)
    requires Linked(gs, ns, t) && current == gs[t.current]
    modifies gs, ns
    ensures fresh(node) && Linked(gs, ns + [node], T.AddJob(t, job))
  {
    hide T.WellFormed, T.AddJob, KidsOk, JobsOk, IsGroupRing, IsNodeRing;
    ghost var c, ring := t.current, Jobs(ns, t, t.current);
    node := new Node(current, job);
    assert GroupOk(gs, ns, t, c);
    ChildrenAmong(gs, ns, t, c);
    JobShape(gs, ns, t, job, node);
    assert current in gs && forall i | 0 <= i < |ring| :: ring[i] in ns;
    current.AddJob(node, ring);
    ghost var ns', t' := ns + [node], T.AddJob(t, job);
    hide Children, Jobs;
    forall g: nat | g < |gs| ensures GroupOk(gs, ns', t', g) {
      ChildrenAmong(gs, ns, t, g);
      assert old(GroupOk(gs, ns, t, g));
      assert KidsOk(gs[g].child, Children(gs, t, g)) by {
        assert forall x | x in Children(gs, t, g) :: x.next == old(x.next) && x.prev == old(x.prev);
      }
      if g != c {
        assert JobsOk(gs[g].jobs, Jobs(ns, t, g)) by {
          OtherJobs(gs, ns, t, g, c);
          assert forall x | x in Jobs(ns, t, g) :: x.next == old(x.next) && x.prev == old(x.prev);
        }
      }
    }
    forall k: nat | k < |ns'| ensures NodeOk(gs, ns', t', k) {
      if k < |ns| {
        assert old(NodeOk(gs, ns, t, k));
      }
    }
  }

  /** What a new job changes in the lists of the tree. */
  lemma JobShape(groups: seq<Group>, nodes: seq<Node>, t: T.Tree, job: T.Job, node: Node)
    requires Shape(groups, nodes, t) && node !in nodes
    ensures var t', nodes' := T.AddJob(t, job), nodes + [node];
      && Shape(groups, nodes', t')
      && (forall g | 0 <= g < |groups| ::
            t'.groups[g].name == t.groups[g].name && t'.groups[g].parent == t.groups[g].parent < |groups|)
      && (forall g | 0 <= g < |groups| && g != t.current :: Jobs(nodes', t', g) == Jobs(nodes, t, g))
      && (forall g | 0 <= g < |groups| :: Children(groups, t', g) == Children(groups, t, g))
      && Jobs(nodes', t', t.current) == Jobs(nodes, t, t.current) + [node]
      && t'.nodes == t.nodes + [T.NodeSpec(job, t.current)] && t'.current == t.current
      && (forall k | 0 <= k < |nodes| :: t.nodes[k].group < |groups|)
  {
    T.AddJobWellFormed(t, job);
  }

  /** Any operations on a graph that was reset: the linked objects are the tree they build. */
  method PlayAll(ops: seq<T.Op>) returns (graph: Graph)
    ensures graph.Valid() && graph.tree == T.Build(ops) && T.Complete(graph.tree)
  {
    hide Graph.Valid, T.Build, T.PushGroup, T.AddJob, T.PopGroup, T.WellFormed;
    graph := new Graph();
    T.BuildNothing();
    assert ops[..0] == [];
    for i := 0 to |ops|
      invariant fresh(graph) && fresh(graph.groups) && fresh(graph.nodes)
      invariant graph.Valid() && graph.tree == T.Build(ops[..i])
    {
      T.BuildSnoc(ops, i);
      match ops[i]
      case OpPush(name) => graph.PushGroup(name);
      case OpPop => graph.PopGroup();
      case OpJob(job) => graph.AddJob(job);
    }
    assert ops[..|ops|] == ops;
    T.BuildComplete(ops);
  }
}
