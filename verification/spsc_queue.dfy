// The single-producer single-consumer ring of c_queue.cpp, one call at a time, with the
// cached copies of the indices that each side keeps.
module SpscQueue {
  import opened Tickets
  import opened BoundedFifo
  import opened Wrappers
  import Spsc = SpscProtocol

  class Queue {
    const slots: array<u64>
    const cap: nat
    var writeIdx: nat
    var readIdxCache: nat
    var readIdx: nat
    var writeIdxCache: nat
    ghost var pushed: seq<u64>
    ghost var popped: nat
    ghost var seenRead: nat
    ghost var seenWrite: nat

    /** Every item accepted and not returned, oldest first; one slot stays empty. */
    ghost function Model(): BoundedFifo.Queue
      reads this
    {
      BoundedFifo.Queue(if cap > 0 then cap - 1 else 0, Contents())
    }

    ghost function Contents(): seq<u64>
      reads this
    {
      if popped <= |pushed| then pushed[popped..] else []
    }

    /**
     * The ring has accepted `pushed` and returned the first `popped` of it; the cached
     * copies were taken when `seenRead` items had been returned and `seenWrite` accepted.
     */
    ghost predicate Valid()
      reads this, slots
    {
      && cap >= 2 && slots.Length == cap
      && seenRead <= popped <= seenWrite <= |pushed| <= seenRead + cap - 1
      && (forall k: nat :: popped <= k < |pushed| ==> slots[Idx(k, cap)] == pushed[k])
      && writeIdx == Idx(|pushed|, cap) && readIdx == Idx(popped, cap)
      && readIdxCache == Idx(seenRead, cap) && writeIdxCache == Idx(seenWrite, cap)
    }

    /** The ring that `spsc_queue_create` makes for an item count. */
    constructor (itemCount: int)
      ensures Valid() && fresh(slots) && Contents() == []
      ensures cap == (if itemCount > 0 then itemCount else 1) + 1
      ensures Model() == BoundedFifo.Queue(if itemCount > 0 then itemCount else 1, [])
    {
      var requested := if itemCount > 0 then itemCount else 1;
      cap := requested + 1;
      slots := new u64[requested + 1](i => 0);
      writeIdx, readIdxCache, readIdx, writeIdxCache := 0, 0, 0, 0;
      pushed, popped, seenRead, seenWrite := [], 0, 0, 0;
    }

    method TryPush(item: u64) returns (ok: bool)
      requires Valid()
      modifies this, slots
      ensures Valid()
      ensures Pushed(Model(), ok) == BoundedFifo.Push(old(Model()), item)
    {
      hide Idx;
      NextSlot();
      var next := Spsc.Next(writeIdx, cap);
      if next == readIdxCache {
        readIdxCache := readIdx;
        seenRead := popped;
        if next == readIdxCache {
          return false;
        }
      }
      slots[writeIdx] := item;
      writeIdx := next;
      pushed := pushed + [item];
      return true;
    }

    /** What the next write index tells, and that the slot to write holds nothing. */
    lemma NextSlot()
      requires Valid()
      ensures Spsc.Next(writeIdx, cap) == Idx(|pushed| + 1, cap)
      ensures Spsc.Next(writeIdx, cap) == readIdxCache <==> |pushed| == seenRead + cap - 1
      ensures Spsc.Next(writeIdx, cap) == readIdx <==> |pushed| == popped + cap - 1
      ensures forall k: nat :: popped <= k < |pushed| ==> Idx(k, cap) != writeIdx
    {
      Spsc.NextOk(|pushed|, cap);
      Spsc.FullTest(|pushed|, seenRead, cap);
      Spsc.FullTest(|pushed|, popped, cap);
      forall k: nat | popped <= k < |pushed| ensures Idx(k, cap) != writeIdx {
        Spsc.Distinct(k, |pushed|, cap);
      }
    }

    /** The start of try_pop and of try_pop_multiple: reload the cached write index if it knows of nothing. */
    method Reload() returns (some: bool)
      requires Valid()
      modifies this`writeIdxCache, this`seenWrite
      ensures Valid()
      ensures some <==> Contents() != []
      ensures some <==> popped < seenWrite
      ensures seenWrite == if popped == old(seenWrite) then |pushed| else old(seenWrite)
    {
      Counters();
      if readIdx == writeIdxCache {
        writeIdxCache := writeIdx;
        seenWrite := |pushed|;
        return writeIdxCache != readIdx;
      }
      return true;
    }

    /** The rest of try_pop. */
    method TakeOne() returns (item: u64)
      requires Valid() && popped < seenWrite
      modifies this`readIdx, this`popped
      ensures Valid() && popped == old(popped) + 1 && item == pushed[old(popped)]
    {
      hide Idx;
      Spsc.NextOk(popped, cap);
      item := slots[readIdx];
      readIdx := Spsc.Next(readIdx, cap);
      popped := popped + 1;
    }

    method TryPop() returns (item: Option<u64>)
      requires Valid()
      modifies this
      ensures Valid()
      ensures Popped(Model(), item) == BoundedFifo.Pop(old(Model()))
    {
      hide Valid, BoundedFifo.Pop;
      Counters();
      PopOne(Model().cap, pushed, popped);
      var some := Reload();
      if !some {
        return None;
      }
      Counters();
      var taken := TakeOne();
      item := Some(taken);
    }

    /**
     * The rest of try_pop_multiple: copies up to `count` of the items that the cached write
     * index knows of, then stores the read index once.
     */
    method TakeKnown(items: array<u64>, count: nat) returns (n: nat)
      requires Valid() && items != slots && count <= items.Length
      modifies this`readIdx, this`popped, items
      ensures Valid() && n == Spsc.Min(count, seenWrite - old(popped)) && popped == old(popped) + n
      ensures forall j | 0 <= j < n :: items[j] == pushed[old(popped) + j]
      ensures forall j | n <= j < items.Length :: items[j] == old(items[j])
    {
      hide Idx;
      Counters();
      n := 0;
      var read := readIdx;
      while n < count && read != writeIdxCache
        invariant n <= count && popped + n <= seenWrite && read == Idx(popped + n, cap)
        invariant forall j | 0 <= j < n :: items[j] == pushed[popped + j]
        invariant forall j | n <= j < items.Length :: items[j] == old(items[j])
        decreases count - n
        modifies items
      {
        Spsc.EmptyTest(seenWrite, popped + n, cap);
        Spsc.NextOk(popped + n, cap);
        items[n] := slots[read];
        n := n + 1;
        read := read + 1;
        if read == cap {
          read := 0;
        }
      }
      Spsc.EmptyTest(seenWrite, popped + n, cap);
      readIdx := read;
      popped := popped + n;
    }

    /**
     * try_pop_multiple: as many pops as fit in `count` and in what the cached write index
     * knows of, with one reload if it knows of nothing; none only if the ring is empty.
     */
    method TryPopMultiple(items: array<u64>, count: nat) returns (n: nat)
      requires Valid() && items != slots && 0 < count <= items.Length
      modifies this, items
      ensures Valid() && pushed == old(pushed) && popped == old(popped) + n
      ensures n == Spsc.Min(count, seenWrite - old(popped)) && (n == 0 <==> old(Contents()) == [])
      ensures seenWrite == if old(popped) == old(seenWrite) then |pushed| else old(seenWrite)
      ensures Batch(Model(), items[..n]) == PopMany(old(Model()), n)
      ensures items[..n] + Contents() == old(Contents())
      ensures forall j | n <= j < items.Length :: items[j] == old(items[j])
    {
      hide Valid, PopMany;
      n := 0;
      var some := Reload();
      if some {
        n := TakeKnown(items, count);
      }
      BatchTaken(old(popped), n, items[..n]);
    }

    lemma BatchTaken(from: nat, n: nat, items: seq<u64>)
      requires popped == from + n <= |pushed| && items == pushed[from..popped]
      ensures Batch(Model(), items) == PopMany(BoundedFifo.Queue(Model().cap, pushed[from..]), n)
      ensures items + Contents() == pushed[from..]
    {
      PopManyTakes(BoundedFifo.Queue(Model().cap, pushed[from..]), n);
    }

    lemma Bound()
      requires Valid()
      ensures |Contents()| <= cap - 1
    {
    }

    /** What comparing the indices tells about the counters behind them. */
    lemma Counters()
      requires Valid()
      ensures seenRead <= popped <= seenWrite <= |pushed|
      ensures readIdx == writeIdxCache <==> popped == seenWrite
      ensures readIdx == writeIdx <==> popped == |pushed|
    {
      Spsc.EmptyTest(seenWrite, popped, cap);
      Spsc.EmptyTest(|pushed|, popped, cap);
    }
  }
}
