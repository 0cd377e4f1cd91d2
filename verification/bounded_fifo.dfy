// The abstract queue that every queue of c_queue.cpp refines when its calls do not overlap.
module BoundedFifo {
  import opened Tickets
  import opened Wrappers

  datatype Queue = Queue(cap: nat, items: seq<u64>)

  datatype Pushed = Pushed(queue: Queue, ok: bool)

  datatype Popped = Popped(queue: Queue, item: Option<u64>)

  /** A full queue refuses and stays as it is. */
  function Push(q: Queue, x: u64): Pushed {
    if |q.items| < q.cap then Pushed(q.(items := q.items + [x]), true) else Pushed(q, false)
  }

  /** An empty queue refuses and stays as it is. */
  function Pop(q: Queue): Popped {
    if q.items == [] then Popped(q, None) else Popped(q.(items := q.items[1..]), Some(q.items[0]))
  }

  /** A push adds to the items from position k on. */
  lemma PushOne(cap: nat, items: seq<u64>, k: nat, x: u64)
    requires k <= |items|
    ensures Push(Queue(cap, items[k..]), x) ==
      if |items| - k < cap then Pushed(Queue(cap, (items + [x])[k..]), true) else Pushed(Queue(cap, items[k..]), false)
  {
    assert (items + [x])[k..] == items[k..] + [x];
  }

  /** A pop takes the first of the items from position k on. */
  lemma PopOne(cap: nat, items: seq<u64>, k: nat)
    requires k <= |items|
    ensures Pop(Queue(cap, items[k..])) ==
      if k < |items| then Popped(Queue(cap, items[k + 1..]), Some(items[k])) else Popped(Queue(cap, []), None)
  {
    if k < |items| {
      assert items[k..][1..] == items[k + 1..];
    }
  }

  datatype Batch = Batch(queue: Queue, items: seq<u64>)

  /** n pops in a row. */
  function PopMany(q: Queue, n: nat): Batch
    decreases n
  {
    if n == 0 then Batch(q, [])
    else
      var r := Pop(q);
      var rest := PopMany(r.queue, n - 1);
      Batch(rest.queue, (if r.item.Some? then [r.item.value] else []) + rest.items)
  }

  /** n pops of a queue that holds as many take its first n items, in order. */
  lemma {:induction false} PopManyTakes(q: Queue, n: nat)
    requires n <= |q.items|
    ensures PopMany(q, n) == Batch(q.(items := q.items[n..]), q.items[..n])
    decreases n
  {
    if n > 0 {
      PopManyTakes(Pop(q).queue, n - 1);
      assert q.items[1..][n - 1..] == q.items[n..];
      assert [q.items[0]] + q.items[1..][..n - 1] == q.items[..n];
    }
  }

  // ---- operation sequences ------------------------------------------------------------

  datatype Op = OpPush(item: u64) | OpPop

  /** A queue with what it has accepted and what it has returned so far. */
  datatype Trace = Trace(queue: Queue, accepted: seq<u64>, returned: seq<u64>)

  function Apply(t: Trace, op: Op): Trace {
    match op
    case OpPush(x) =>
      var r := Push(t.queue, x);
      Trace(r.queue, if r.ok then t.accepted + [x] else t.accepted, t.returned)
    case OpPop =>
      var r := Pop(t.queue);
      Trace(r.queue, t.accepted, if r.item.Some? then t.returned + [r.item.value] else t.returned)
  }

  function Play(cap: nat, ops: seq<Op>): Trace {
    if ops == [] then Trace(Queue(cap, []), [], [])
    else
      var n := |ops| - 1;
      Apply(Play(cap, ops[..n]), ops[n])
  }

  /** Over any operations, what was accepted is what was returned followed by what is held. */
  lemma {:induction false} FirstInFirstOut(cap: nat, ops: seq<Op>)
    ensures var t := Play(cap, ops);
            && t.queue.cap == cap && |t.queue.items| <= cap
            && t.accepted == t.returned + t.queue.items
  {
    if ops != [] {
      var n := |ops| - 1;
      FirstInFirstOut(cap, ops[..n]);
    }
  }

  lemma TakeSnoc(items: seq<u64>, k: nat, x: u64)
    requires k <= |items|
    ensures (items + [x])[..k] == items[..k]
    ensures k < |items| ==> items[..k + 1] == items[..k] + [items[k]]
    ensures items == items[..k] + items[k..]
  {
  }

  lemma PlayNothing(cap: nat)
    ensures Play(cap, []) == Trace(Queue(cap, []), [], [])
  {
  }

  lemma PlaySnoc(cap: nat, ops: seq<Op>, i: nat)
    requires i < |ops|
    ensures Play(cap, ops[..i + 1]) == Apply(Play(cap, ops[..i]), ops[i])
  {
    assert ops[..i + 1][..i] == ops[..i];
  }

  function Pushes(items: seq<u64>): seq<Op> {
    seq(|items|, i requires 0 <= i < |items| => OpPush(items[i]))
  }

  function Pops(n: nat): seq<Op> {
    seq(n, _ => OpPop)
  }

  /** An empty queue takes any items up to its capacity, then no more, and gives them back in order. */
  lemma FillDrain(cap: nat, items: seq<u64>, x: u64, n: nat)
    requires |items| <= cap && n <= |items|
    ensures Play(cap, Pushes(items)) == Trace(Queue(cap, items), items, [])
    ensures |items| == cap ==> Play(cap, Pushes(items) + [OpPush(x)]) == Play(cap, Pushes(items))
    ensures Play(cap, Pushes(items) + Pops(n)) == Trace(Queue(cap, items[n..]), items, items[..n])
    ensures n == |items| ==> Play(cap, Pushes(items) + Pops(n + 1)) == Play(cap, Pushes(items) + Pops(n))
  {
    hide Play, Pushes, Pops;
    Fill(cap, items);
    Drain(cap, items, n);
    PlayOne(cap, Pushes(items), OpPush(x));
    PopsOne(Pushes(items), n);
    PlayOne(cap, Pushes(items) + Pops(n), OpPop);
  }

  lemma PlayOne(cap: nat, ops: seq<Op>, op: Op)
    ensures Play(cap, ops + [op]) == Apply(Play(cap, ops), op)
  {
    assert (ops + [op])[..|ops|] == ops;
  }

  lemma PopsOne(ops: seq<Op>, n: nat)
    ensures ops + Pops(n + 1) == (ops + Pops(n)) + [OpPop]
  {
  }

  lemma {:induction false} Fill(cap: nat, items: seq<u64>)
    requires |items| <= cap
    ensures Play(cap, Pushes(items)) == Trace(Queue(cap, items), items, [])
  {
    if items == [] {
      assert Pushes(items) == [];
    } else {
      var n := |items| - 1;
      assert Pushes(items) == Pushes(items[..n]) + [OpPush(items[n])];
      assert items[..n] + [items[n]] == items;
      hide Play, Pushes;
      Fill(cap, items[..n]);
      PlayOne(cap, Pushes(items[..n]), OpPush(items[n]));
    }
  }

  lemma {:induction false} Drain(cap: nat, items: seq<u64>, n: nat)
    requires |items| <= cap && n <= |items|
    ensures Play(cap, Pushes(items) + Pops(n)) == Trace(Queue(cap, items[n..]), items, items[..n])
    decreases n
  {
    hide Play, Pushes;
    if n == 0 {
      Fill(cap, items);
      assert Pushes(items) + Pops(0) == Pushes(items);
    } else {
      Drain(cap, items, n - 1);
      PopsOne(Pushes(items), n - 1);
      hide Pops;
      PlayOne(cap, Pushes(items) + Pops(n - 1), OpPop);
      PopOne(cap, items, n - 1);
      assert items[..n - 1] + [items[n - 1]] == items[..n];
    }
  }
}
