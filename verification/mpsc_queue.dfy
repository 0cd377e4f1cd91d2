// The multi-producer single-consumer queue of c_queue.cpp, one call at a time: the
// consumer's own ring, the drain loops that fill it, and the clients that read from it.
module MpscQueue {
  import opened Tickets
  import Spsc = SpscProtocol
  import BoundedFifo
  import SpscQueue

  lemma PrefixOfSum(a: seq<u64>, b: seq<u64>, n: nat)
    requires n <= |b|
    ensures (a + b)[..|a| + n] == a + b[..n]
  {
  }

  lemma Regroup(all: seq<u64>, held: seq<u64>, taken: seq<u64>, waiting: seq<u64>, rest: seq<u64>)
    requires all == held + waiting && waiting == taken + rest
    ensures all == (held + taken) + rest
  {
  }

  lemma SplitSum(front: seq<u64>, rest: seq<u64>, n: nat)
    requires n <= |front|
    ensures (front + rest)[..n] == front[..n] && (front + rest)[|front|..] == rest
  {
  }

  /** local_ring_t: one slot stays empty. */
  class LocalRing {
    const slots: array<u64>
    var writer: nat
    var reader: nat
    ghost var added: seq<u64>    // every item ever added
    ghost var released: nat      // how many of them have been released

    ghost function Contents(): seq<u64>
      reads this
    {
      if released <= |added| then added[released..] else []
    }

    ghost predicate Valid()
      reads this, slots
    {
      var cap := slots.Length;
      && cap >= 2
      && released <= |added| <= released + cap - 1
      && writer == Idx(|added|, cap) && reader == Idx(released, cap)
      && (forall k: nat :: released <= k < |added| ==> slots[Idx(k, cap)] == added[k])
    }

    lemma Bound()
      requires Valid()
      ensures |Contents()| <= slots.Length - 1
    {
    }

    constructor (capacity: nat)
      requires capacity >= 2
      ensures Valid() && fresh(slots) && slots.Length == capacity && Contents() == []
      ensures added == [] && released == 0 && reader == 0
    {
      slots := new u64[capacity](i => 0);
      writer, reader := 0, 0;
      added, released := [], 0;
    }

    method Add(item: u64) returns (ok: bool)
      requires Valid()
      modifies this, slots
      ensures Valid() && reader == old(reader) && released == old(released)
      ensures ok <==> |old(Contents())| < slots.Length - 1
      ensures Contents() == if ok then old(Contents()) + [item] else old(Contents())
      ensures added == if ok then old(added) + [item] else old(added)
    {
      var cap := slots.Length;
      Spsc.FullTest(|added|, released, cap);
      Spsc.NextOk(|added|, cap);
      forall k: nat | released <= k < |added| ensures Idx(k, cap) != writer {
        Spsc.Distinct(k, |added|, cap);
      }
      hide Idx;
      var next := Spsc.Next(writer, cap);
      if next == reader {
        return false;
      }
      slots[writer] := item;
      writer := next;
      added := added + [item];
      return true;
    }

    /** Adds as many as fit, in order; fails exactly when not all fit, and then the ring is full. */
    method AddMultiple(items: array<u64>, count: nat) returns (ok: bool)
      requires Valid() && items != slots && count <= items.Length
      modifies this, slots
      ensures Valid() && reader == old(reader) && released == old(released)
      ensures ok <==> |old(Contents())| + count <= slots.Length - 1
      ensures ok ==> Contents() == old(Contents()) + items[..count]
      ensures !ok ==> Contents() == (old(Contents()) + items[..count])[..slots.Length - 1]
    {
      hide Valid;
      for i := 0 to count
        invariant Valid() && reader == old(reader) && released == old(released)
        invariant Contents() == old(Contents()) + items[..count][..i]
      {
        Bound();
        var added := Add(items[i]);
        if !added {
          PrefixOfSum(old(Contents()), items[..count], i);
          return false;
        }
      }
      Bound();
      return true;
    }

    /** Whether anything is held, and the range of it. */
    function Inspect(): (r: (bool, nat, nat))
      requires Valid()
      reads this, slots
      ensures r.0 <==> Contents() != []
      ensures r.0 ==> r.1 == reader && r.2 == writer && reader != writer
    {
      Spsc.EmptyTest(|added|, released, slots.Length);
      (reader != writer, reader, writer)
    }

    /** Where the n-th item held is, and what comparing it with the writer tells. */
    lemma Position(n: nat)
      requires Valid() && n <= |Contents()|
      ensures Idx(released + n, slots.Length) == writer <==> n == |Contents()|
      ensures Spsc.Next(Idx(released + n, slots.Length), slots.Length) == Idx(released + n + 1, slots.Length)
      ensures reader == Idx(released, slots.Length) && writer < slots.Length
    {
      Spsc.EmptyTest(|added|, released + n, slots.Length);
      Spsc.NextOk(released + n, slots.Length);
    }

    /** The range from reader to writer wraps exactly when it reaches the end of the slots. */
    lemma Wraps()
      requires Valid()
      ensures var past := reader + |Contents()|;
              writer == if past < slots.Length then past else past - slots.Length
    {
      hide Idx;
      assert |added| == released + |Contents()|;
      IdxAdd(released, |Contents()|, slots.Length);
    }

    /** Reads the n-th item held and steps to the next. */
    method Read(idx: nat, ghost n: nat) returns (item: u64, next: nat)
      requires Valid() && n < |Contents()| && idx == Idx(released + n, slots.Length)
      ensures item == Contents()[n] && next == Idx(released + n + 1, slots.Length)
    {
      Spsc.NextOk(released + n, slots.Length);
      next := Spsc.Next(idx, slots.Length);
      item := slots[idx];
    }

    /** Gives up the first n items held. */
    method Release(idx: nat, ghost n: nat)
      requires Valid() && n <= |Contents()| && idx == Idx(released + n, slots.Length)
      modifies this
      ensures Valid() && Contents() == old(Contents())[n..] && released == old(released) + n && reader == idx
      ensures added == old(added) && writer == old(writer)
    {
      reader := idx;
      released := released + n;
    }

    /** A client that reads while `idx != end` gets everything held, in order. */
    method ReadRange(begin: nat, end: nat) returns (items: seq<u64>, idx: nat)
      requires Valid() && begin == reader && end == writer
      ensures items == Contents() && idx == end
    {
      hide Idx, Valid;
      items, idx := [], begin;
      Position(0);
      while idx != end
        invariant |items| <= |Contents()| && items == Contents()[..|items|]
        invariant idx == Idx(released + |items|, slots.Length)
        decreases |Contents()| - |items|
      {
        Position(|items|);
        var item;
        item, idx := Read(idx, |items|);
        items := items + [item];
      }
      Position(|items|);
    }

    /**
     * The loop of `s_worker_thread` reads while `i < end`: it gets everything held if the
     * range does not wrap, and nothing at all if it does.
     */
    method WorkerReads(begin: nat, end: nat) returns (items: seq<u64>, i: nat)
      requires Valid() && begin == reader && end == writer
      ensures items == if begin <= end then Contents() else []
      ensures i == if begin <= end then end else begin
    {
      hide Idx, Valid;
      items, i := [], begin;
      Position(0);
      while i < end
        invariant |items| <= |Contents()| && items == Contents()[..|items|]
        invariant i == Idx(released + |items|, slots.Length)
        invariant begin <= end ==> i <= end
        invariant begin > end ==> items == [] && i == begin
        decreases |Contents()| - |items|
      {
        Position(|items|);
        var item;
        item, i := Read(i, |items|);
        items := items + [item];
      }
      Position(|items|);
    }
  }

  /** The contents of the producers' rings, one after the other. */
  function Concat(queues: seq<seq<u64>>): seq<u64> {
    if queues == [] then []
    else
      var n := |queues| - 1;
      Concat(queues[..n]) + queues[n]
  }

  lemma {:induction false} ConcatBound(queues: seq<seq<u64>>, items: nat)
    requires forall i | 0 <= i < |queues| :: |queues[i]| <= items
    ensures |Concat(queues)| <= |queues| * items
  {
    if queues != [] {
      var n := |queues| - 1;
      ConcatBound(queues[..n], items);
      assert |queues| * items == n * items + items;
    }
  }

  lemma {:induction false} ConcatEmpty(queues: seq<seq<u64>>)
    requires forall i | 0 <= i < |queues| :: queues[i] == []
    ensures Concat(queues) == []
  {
    if queues != [] {
      ConcatEmpty(queues[..|queues| - 1]);
    }
  }

  /** What the first rings held leaves room for what the next one holds. */
  lemma RoomForNext(queues: seq<seq<u64>>, i: nat, items: nat)
    requires i < |queues| && forall j | 0 <= j < |queues| :: |queues[j]| <= items
    ensures |Concat(queues[..i])| + |queues[i]| <= |queues| * items
  {
    ConcatBound(queues[..i], items);
    Monotone(i + 1, |queues|, items);
    assert (i + 1) * items == i * items + items;
  }

  lemma ConcatSnoc(queues: seq<seq<u64>>, i: nat)
    requires i < |queues|
    ensures Concat(queues[..i + 1]) == Concat(queues[..i]) + queues[i]
  {
    assert queues[..i + 1][..i] == queues[..i];
  }

  /** The loop of create_queue that makes one ring per producer. */
  method CreateProducers(count: nat, itemCount: int) returns (queues: seq<SpscQueue.Queue>)
    ensures |queues| == count
    ensures forall i | 0 <= i < count ::
              queues[i].Valid() && queues[i].Contents() == [] && fresh(queues[i]) && fresh(queues[i].slots)
    ensures forall i | 0 <= i < count :: queues[i].cap == (if itemCount > 0 then itemCount else 1) + 1
    ensures forall i, j | 0 <= i < j < count :: queues[i] != queues[j] && queues[i].slots != queues[j].slots
  {
    queues := [];
    for k := 0 to count
      invariant |queues| == k
      invariant forall i | 0 <= i < k ::
                  queues[i].Valid() && queues[i].Contents() == [] && fresh(queues[i]) && fresh(queues[i].slots)
      invariant forall i | 0 <= i < k :: queues[i].cap == (if itemCount > 0 then itemCount else 1) + 1
      invariant forall i, j | 0 <= i < j < k :: queues[i] != queues[j] && queues[i].slots != queues[j].slots
    {
      var queue := new SpscQueue.Queue(itemCount);
      queues := queues + [queue];
    }
  }

  /**
   * The inner loop of `inspect`: pops batches of eight from one producer's ring into the
   * consumer's ring. It succeeds exactly when everything fits. Otherwise the consumer's ring
   * is filled up, in order, and the rest of the batch at hand is in neither ring.
   */
  method DrainProducer(queue: SpscQueue.Queue, ring: LocalRing, buffer: array<u64>) returns (ok: bool)
    requires queue.Valid() && ring.Valid() && buffer.Length == 8
    requires queue.slots != ring.slots && buffer != queue.slots && buffer != ring.slots
    modifies queue, ring, ring.slots, buffer
    ensures queue.Valid() && ring.Valid() && ring.reader == old(ring.reader)
    ensures ok <==> |old(ring.Contents())| + |old(queue.Contents())| <= ring.slots.Length - 1
    ensures ok ==> queue.Contents() == [] && ring.Contents() == old(ring.Contents()) + old(queue.Contents())
    ensures !ok ==> var all := old(ring.Contents()) + old(queue.Contents());
      && ring.Contents() == all[..ring.slots.Length - 1]
      && |queue.Contents()| < |all| - |ring.Contents()| && queue.Contents() == all[|all| - |queue.Contents()|..]
  {
    hide Idx, BoundedFifo.PopMany, LocalRing.Valid, SpscQueue.Queue.Valid;
    ghost var all := ring.Contents() + queue.Contents();
    while true
      invariant queue.Valid() && ring.Valid() && ring.reader == old(ring.reader)
      invariant ring.Contents() + queue.Contents() == all
      decreases |queue.Contents()|
    {
      ring.Bound();
      ghost var held, waiting := ring.Contents(), queue.Contents();
      var n := queue.TryPopMultiple(buffer, 8);
      if n == 0 {
        return true;
      }
      ghost var taken, rest := buffer[..n], queue.Contents();
      Regroup(all, held, taken, waiting, rest);
      ok := ring.AddMultiple(buffer, n);
      if !ok {
        SplitSum(held + taken, rest, ring.slots.Length - 1);
        return false;
      }
    }
  }

  class Queue {
    const producers: seq<SpscQueue.Queue>
    const ring: LocalRing
    const items: nat            // per producer
    var dirty: set<nat>         // m_queues_state, as the set of its one bits

    ghost predicate Separate() {
      && (forall i, j | 0 <= i < j < |producers| ::
            producers[i] != producers[j] && producers[i].slots != producers[j].slots)
      && (forall i | 0 <= i < |producers| :: producers[i].slots != ring.slots)
    }

    /** The rings and their arrays. */
    ghost function Parts(): set<object> {
      {ring, ring.slots}
      + (set i | 0 <= i < |producers| :: producers[i])
      + (set i | 0 <= i < |producers| :: producers[i].slots)
    }

    ghost function Queues(): (r: seq<seq<u64>>)
      reads Parts()
      ensures |r| == |producers|
      ensures forall i | 0 <= i < |producers| :: r[i] == producers[i].Contents()
    {
      seq(|producers|, i requires 0 <= i < |producers| reads Parts() => producers[i].Contents())
    }

    /** Rings as created, each valid by itself. */
    ghost predicate Sized()
      reads Parts()
    {
      && Separate()
      && 1 <= |producers| && items >= 1
      && ring.Valid() && ring.slots.Length == |producers| * items + 1
      && (forall i | 0 <= i < |producers| :: producers[i].Valid() && producers[i].cap == items + 1)
    }

    /** A producer with items waiting has its bit set. */
    ghost predicate Valid()
      reads this, Parts()
    {
      && Sized()
      && (forall i | 0 <= i < |producers| && producers[i].Contents() != [] :: i in dirty)
    }

    /** create_queue, for a producer count it accepts. */
    constructor (producerCount: nat, itemCount: int)
      requires 1 <= producerCount <= 64
      ensures Valid() && fresh(Parts())
      ensures |producers| == producerCount && items == (if itemCount > 0 then itemCount else 1)
      ensures Queues() == seq(producerCount, i => []) && Drained() && dirty == {}
      ensures ring.Contents() == [] && ring.reader == 0 && ring.slots.Length == producerCount * items + 1
    {
      hide Idx, LocalRing.Valid, SpscQueue.Queue.Valid;
      var producerItems := if itemCount > 0 then itemCount else 1;
      assert producerCount * producerItems >= 1 by { Monotone(1, producerCount, producerItems); }
      var queues := CreateProducers(producerCount, itemCount);
      var own := new LocalRing(producerCount * producerItems + 1);
      producers, ring, items, dirty := queues, own, producerItems, {};
    }

    /** push: false for a producer that does not exist or whose ring is full. */
    method Push(producer: int, item: u64) returns (ok: bool)
      requires Valid()
      modifies this, if 0 <= producer < |producers| then {producers[producer], producers[producer].slots} else {}
      ensures Valid()
      ensures ok <==> 0 <= producer < |producers| && |old(producers[producer].Contents())| < items
      ensures ok ==> producers[producer].Contents() == old(producers[producer].Contents()) + [item]
      ensures 0 <= producer < |producers| && !ok ==>
        producers[producer].Contents() == old(producers[producer].Contents())
      ensures dirty == if ok then old(dirty) + {producer} else old(dirty)
    {
      if !(0 <= producer < |producers|) {
        return false;
      }
      ok := producers[producer].TryPush(item);
      if ok {
        dirty := dirty + {producer};
      }
      OthersStand(producer);
    }

    /**
     * inspect: if the consumer's ring holds nothing it is filled with everything the
     * producers' rings hold, producer by producer, and they are left empty; the assertion
     * on a full ring does not fire. Otherwise nothing moves.
     */
    method Inspect() returns (found: bool, begin: nat, end: nat)
      requires Valid()
      modifies this, Parts()
      ensures Valid()
      ensures found <==> ring.Contents() != []
      ensures found ==> begin == ring.reader && end == ring.writer && begin != end
      ensures ring.reader == old(ring.reader)
      ensures old(ring.Contents()) != [] ==>
        ring.Contents() == old(ring.Contents()) && Queues() == old(Queues()) && dirty == old(dirty)
      ensures old(ring.Contents()) == [] ==>
        ring.Contents() == Concat(old(Queues())) && Drained() && dirty == {}
    {
      hide Idx, LocalRing.Valid, SpscQueue.Queue.Valid, Concat;
      var own := ring.Inspect();
      if own.0 {
        return own.0, own.1, own.2;
      }
      var some := Refill();
      if !some {
        return false, 0, 0;
      }
      hide Queues;
      own := ring.Inspect();
      return own.0, own.1, own.2;
    }

    /** The part of inspect that takes the bitmap and drains the producers' rings. */
    method Refill() returns (some: bool)
      requires Valid() && ring.Contents() == []
      modifies this, Parts()
      ensures Valid() && ring.reader == old(ring.reader)
      ensures ring.Contents() == Concat(old(Queues())) && Drained() && dirty == {}
      ensures !some ==> ring.Contents() == []
    {
      hide Idx, LocalRing.Valid, SpscQueue.Queue.Valid;
      var pending := Exchange();
      if pending == {} {
        NothingWaiting();
        return false;
      }
      DrainAll();
      return true;
    }

    /** release up to `end`: 0 exactly when nothing is held and no bit is set, and then nothing waits anywhere. */
    method Release(idx: nat, end: nat, ghost n: nat) returns (result: int)
      requires Valid() && n <= |ring.Contents()| && idx == end == Idx(ring.released + n, ring.slots.Length)
      modifies ring
      ensures Valid() && ring.Contents() == old(ring.Contents())[n..] && Queues() == old(Queues())
      ensures result == if ring.Contents() == [] && dirty == {} then 0 else 1
      ensures result == 0 ==> Drained()
    {
      hide Idx, LocalRing.Valid, SpscQueue.Queue.Valid;
      ring.Release(end, n);
      var own := ring.Inspect();
      result := if own.0 then 1 else 0;
      if result == 0 {
        result := if dirty == {} then 0 else 1;
      }
    }

    /** What inspect is to find: what the consumer's ring holds, or else what the producers' rings hold. */
    ghost function Pending(): seq<u64>
      reads Parts()
    {
      if ring.Contents() != [] then ring.Contents() else Concat(Queues())
    }

    /**
     * One turn of the loop of `s_worker_thread`: inspect, read while `i < end`, release. It
     * hands out all that is pending if the range does not wrap, and otherwise none of it;
     * either way the range is gone afterwards. The release is given the first index of the
     * range, which is never its end, so that its assertion `idx == end` fails each time.
     */
    method WorkerTurn() returns (found: bool, begin: nat, end: nat, items: seq<u64>)
      requires Valid()
      modifies this, Parts()
      ensures Valid() && ring.Contents() == []
      ensures found <==> old(Pending()) != []
      ensures found ==> begin == old(ring.reader) < ring.slots.Length && begin != end == ring.reader
      ensures found ==> var past := begin + |old(Pending())|;
                        end == if past < ring.slots.Length then past else past - ring.slots.Length
      ensures items == if found && begin < end then old(Pending()) else []
      ensures if old(ring.Contents()) == [] then Drained() && dirty == {}
              else Queues() == old(Queues()) && dirty == old(dirty)
    {
      hide Idx, LocalRing.Valid, SpscQueue.Queue.Valid, Concat;
      found, begin, end := Inspect();
      if !found {
        return found, begin, end, [];
      }
      var i;
      items, i := ring.WorkerReads(begin, end);
      ghost var n := |ring.Contents()|;
      ring.Position(n);
      ring.Wraps();
      assert begin < ring.slots.Length;
      ring.Release(end, n);
    }

    /** The exchange of the bitmap with 0. */
    method Exchange() returns (pending: set<nat>)
      requires Sized()
      modifies this
      ensures pending == old(dirty) && dirty == {}
      ensures Sized() && Queues() == old(Queues())
      ensures ring.Contents() == old(ring.Contents()) && ring.reader == old(ring.reader)
    {
      pending := dirty;
      assert (this as object) !in Parts();
      dirty := {};
    }

    ghost predicate Drained()
      reads Parts()
    {
      forall i | 0 <= i < |producers| :: producers[i].Contents() == []
    }

    lemma NothingWaiting()
      requires forall i | 0 <= i < |producers| :: Queues()[i] == []
      ensures Concat(Queues()) == [] && Drained()
    {
      ConcatEmpty(Queues());
      forall i | 0 <= i < |producers| ensures producers[i].Contents() == [] {
        assert Queues()[i] == [];
      }
    }

    /** The outer loop of `inspect`. */
    method DrainAll()
      requires Sized() && ring.Contents() == []
      modifies Parts()
      ensures Sized() && ring.Contents() == Concat(old(Queues())) && Drained() && ring.reader == old(ring.reader)
    {
      hide Idx, LocalRing.Valid, SpscQueue.Queue.Valid;
      ghost var queues := Queues();
      forall j | 0 <= j < |producers| ensures |queues[j]| <= items {
        producers[j].Bound();
      }
      assert queues[..|producers|] == queues;
      var buffer := new u64[8];
      for i := 0 to |producers|
        invariant Sized() && ring.Contents() == Concat(queues[..i]) && ring.reader == old(ring.reader)
        invariant forall j | 0 <= j < i :: producers[j].Contents() == []
        invariant forall j | i <= j < |producers| :: producers[j].Contents() == queues[j]
      {
        RoomForNext(queues, i, items);
        label before:
        var ok := DrainProducer(producers[i], ring, buffer);
        assert ok;
        OthersStand@before(i);
        ConcatSnoc(queues, i);
      }
    }

    /** What is not in the frame of a step on one producer's ring keeps its validity. */
    twostate lemma OthersStand(p: nat)
      requires p < |producers| && old(Sized())
      requires forall i | 0 <= i < |producers| && i != p ::
        unchanged(producers[i]) && unchanged(producers[i].slots)
      ensures forall i | 0 <= i < |producers| && i != p ::
        producers[i].Valid() && producers[i].Contents() == old(producers[i].Contents())
    {
    }
  }

  lemma {:induction false} ConcatOne(queues: seq<seq<u64>>)
    requires queues != [] && forall i | 0 < i < |queues| :: queues[i] == []
    ensures Concat(queues) == queues[0]
  {
    var n := |queues| - 1;
    if n == 0 {
      assert queues[..0] == [];
    } else {
      ConcatOne(queues[..n]);
    }
  }

  /** A push to the first producer of a drained queue is all that is pending. */
  method PushAlone(queue: Queue, x: u64) returns (ok: bool)
    requires queue.Valid() && queue.ring.Contents() == [] && queue.Drained()
    modifies queue, queue.producers[0], queue.producers[0].slots
    ensures queue.Valid() && ok && queue.Pending() == [x]
    ensures queue.ring.Contents() == [] && queue.ring.reader == old(queue.ring.reader)
  {
    hide LocalRing.Valid, SpscQueue.Queue.Valid;
    ok := queue.Push(0, x);
    ConcatOne(queue.Queues());
  }

  /** One item pushed to a drained queue, and a turn of the worker. */
  method Send(queue: Queue, x: u64) returns (ok: bool, found: bool, begin: nat, end: nat, items: seq<u64>)
    requires queue.Valid() && queue.ring.Contents() == [] && queue.Drained()
    modifies queue, queue.Parts()
    ensures queue.Valid() && queue.ring.Contents() == [] && queue.Drained() && queue.dirty == {}
    ensures ok && found && begin == old(queue.ring.reader) && end == queue.ring.reader
    ensures end == (if begin + 1 < queue.ring.slots.Length then begin + 1 else 0)
    ensures items == if begin < end then [x] else []
  {
    hide LocalRing.Valid, SpscQueue.Queue.Valid, Concat;
    assert queue.producers[0] in queue.Parts() && queue.producers[0].slots in queue.Parts();
    ok := PushAlone(queue, x);
    found, begin, end, items := queue.WorkerTurn();
  }

  /**
   * In every configuration a worker loses an item that was accepted: one item at a time moves
   * the range to the last slot of the consumer's ring, where it wraps.
   */
  method LoseAnItem(producerCount: nat, itemCount: int, x: u64)
    returns (queue: Queue, ok: bool, found: bool, begin: nat, end: nat, items: seq<u64>)
    requires 1 <= producerCount <= 64
    ensures queue.Valid() && |queue.producers| == producerCount
    ensures queue.items == if itemCount > 0 then itemCount else 1
    ensures ok && found && end < begin && items == []
    ensures queue.ring.Contents() == [] && queue.Drained() && queue.dirty == {}
  {
    hide LocalRing.Valid, SpscQueue.Queue.Valid, Concat, Queue.Valid, Queue.Drained;
    queue := new Queue(producerCount, itemCount);
    var last := producerCount * queue.items;
    for j := 0 to last
      invariant fresh(queue) && fresh(queue.Parts()) && queue.Valid() && queue.ring.slots.Length == last + 1
      invariant |queue.producers| == producerCount && queue.items == if itemCount > 0 then itemCount else 1
      invariant queue.ring.Contents() == [] && queue.Drained() && queue.ring.reader == j
    {
      ok, found, begin, end, items := Send(queue, x);
    }
    ok, found, begin, end, items := Send(queue, x);
  }
}
