// The single-threaded ring of c_queue.cpp, one slot of which stays empty.
module LocalQueue {
  import opened Tickets
  import opened BoundedFifo
  import opened Wrappers
  import Spsc = SpscProtocol

  class Queue {
    const slots: array<u64>
    const cap: nat
    var writeIdx: nat
    var readIdx: nat
    ghost var pushed: seq<u64>
    ghost var popped: nat

    ghost function Model(): BoundedFifo.Queue
      reads this
    {
      BoundedFifo.Queue(if cap > 0 then cap - 1 else 0, if popped <= |pushed| then pushed[popped..] else [])
    }

    ghost predicate Valid()
      reads this, slots
    {
      && cap >= 1 && slots.Length == cap
      && popped <= |pushed| <= popped + cap - 1
      && writeIdx == Idx(|pushed|, cap) && readIdx == Idx(popped, cap)
      && (forall k: nat :: popped <= k < |pushed| ==> slots[Idx(k, cap)] == pushed[k])
    }

    /** local_queue_create gives as many slots as items asked for, and so room for one less. */
    constructor (itemCount: nat)
      requires itemCount > 0
      ensures Valid() && fresh(slots) && Model() == BoundedFifo.Queue(itemCount - 1, [])
    {
      cap := itemCount;
      slots := new u64[itemCount](i => 0);
      writeIdx, readIdx := 0, 0;
      pushed, popped := [], 0;
    }

    method TryPush(item: u64) returns (ok: bool)
      requires Valid()
      modifies this, slots
      ensures Valid()
      ensures Pushed(Model(), ok) == BoundedFifo.Push(old(Model()), item)
    {
      Spsc.FullTest(|pushed|, popped, cap);
      Spsc.NextOk(|pushed|, cap);
      forall k: nat | popped <= k < |pushed| ensures Idx(k, cap) != writeIdx {
        Spsc.Distinct(k, |pushed|, cap);
      }
      hide Idx;
      var next := Spsc.Next(writeIdx, cap);
      if next == readIdx {
        return false;
      }
      slots[writeIdx] := item;
      writeIdx := next;
      pushed := pushed + [item];
      return true;
    }

    method TryPop() returns (item: Option<u64>)
      requires Valid()
      modifies this
      ensures Valid()
      ensures Popped(Model(), item) == BoundedFifo.Pop(old(Model()))
    {
      Spsc.EmptyTest(|pushed|, popped, cap);
      Spsc.NextOk(popped, cap);
      hide Idx, BoundedFifo.Pop;
      PopOne(Model().cap, pushed, popped);
      if readIdx == writeIdx {
        return None;
      }
      item := Some(slots[readIdx]);
      readIdx := Spsc.Next(readIdx, cap);
      popped := popped + 1;
    }
  }
}
