// Ticket arithmetic shared by the two turn-based queues of c_queue.cpp (MPMC and SPMC).
//
// A ticket is the running number of a push or of a pop. Ticket k uses slot `Idx(k)` in
// round `Turn(k)`; a slot is free for round r when its turn is 2r and filled in round r
// when its turn is 2r + 1.
module Tickets {

  /** The items are 64-bit words. */
  type u64 = x: int | 0 <= x < 0x1_0000_0000_0000_0000

  /** One more than the largest value of the 32-bit indices and turns. */
  const U32_LIMIT: nat := 0x1_0000_0000

  /** Wrap-around of an unsigned 32-bit result. */
  function U32(x: nat): (r: nat)
    ensures r < U32_LIMIT
    ensures x < U32_LIMIT ==> r == x
  {
    x % U32_LIMIT
  }

  datatype Slot = Slot(turn: nat, item: u64)

  function Idx(ticket: nat, cap: nat): (i: nat)
    requires cap > 0
    ensures i < cap
  {
    ticket % cap
  }

  function Turn(ticket: nat, cap: nat): nat
    requires cap > 0
  {
    ticket / cap
  }

  /** The turn test of `try_push`, in 32-bit arithmetic. */
  predicate PushCheckPasses(slots: seq<Slot>, cap: nat, head: nat)
    requires 0 < cap == |slots|
  {
    slots[Idx(head, cap)].turn == U32(Turn(head, cap) * 2)
  }

  /** The turn test of `try_pop`, in 32-bit arithmetic. */
  predicate PopCheckPasses(slots: seq<Slot>, cap: nat, tail: nat)
    requires 0 < cap == |slots|
  {
    slots[Idx(tail, cap)].turn == U32(Turn(tail, cap) * 2 + 1)
  }

  lemma Monotone(x: nat, y: nat, cap: nat)
    requires x <= y
    ensures x * cap <= y * cap
  {
  }

  /** Two tickets of one slot are ordered as their rounds, and lie at least a lap apart. */
  lemma SameSlot(a: nat, b: nat, cap: nat)
    requires cap > 0 && Idx(a, cap) == Idx(b, cap)
    ensures a < b <==> Turn(a, cap) < Turn(b, cap)
    ensures a == b <==> Turn(a, cap) == Turn(b, cap)
    ensures a < b ==> a + cap <= b
  {
    var x, y := Turn(a, cap), Turn(b, cap);
    assert a == x * cap + a % cap && b == y * cap + b % cap;
    if x < y {
      Monotone(x + 1, y, cap);
    } else if y < x {
      Monotone(y + 1, x, cap);
    }
  }

  /** One lap later a ticket meets the same slot in the next round. */
  lemma NextLap(k: nat, cap: nat)
    requires cap > 0
    ensures Idx(k + cap, cap) == Idx(k, cap)
    ensures Turn(k + cap, cap) == Turn(k, cap) + 1
  {
    var q, r := k / cap, k % cap;
    assert k + cap == (q + 1) * cap + r;
    DivMod(k + cap, q + 1, r, cap);
  }

  /** Quotient and remainder are unique. */
  lemma DivMod(k: nat, q: nat, r: nat, cap: nat)
    requires cap > 0 && r < cap && k == q * cap + r
    ensures k / cap == q && k % cap == r
  {
    var q', r' := k / cap, k % cap;
    assert k == q' * cap + r';
    if q' < q {
      Monotone(q' + 1, q, cap);
    } else if q < q' {
      Monotone(q + 1, q', cap);
    }
  }

  /** Advancing an index with a test against the capacity counts modulo the capacity. */
  lemma NextIdx(k: nat, cap: nat)
    requires cap > 0
    ensures Idx(k + 1, cap) == if Idx(k, cap) + 1 == cap then 0 else Idx(k, cap) + 1
  {
    var q, r := k / cap, k % cap;
    assert k == q * cap + r;
    if r + 1 == cap {
      assert k + 1 == (q + 1) * cap + 0;
      DivMod(k + 1, q + 1, 0, cap);
    } else {
      DivMod(k + 1, q, r + 1, cap);
    }
  }

  /** Less than a lap further the index has gone past the last slot or not. */
  lemma IdxAdd(k: nat, n: nat, cap: nat)
    requires cap > 0 && n < cap
    ensures var past := Idx(k, cap) + n;
            Idx(k + n, cap) == if past < cap then past else past - cap
  {
    var q, past := k / cap, k % cap + n;
    assert k == q * cap + k % cap;
    if past < cap {
      DivMod(k + n, q, past, cap);
    } else {
      assert (q + 1) * cap == q * cap + cap;
      DivMod(k + n, q + 1, past - cap, cap);
    }
  }

  /** Tickets below this bound never make a stored turn, at most 2 * turn + 2, wrap. */
  const MAX_TICKETS: nat := U32_LIMIT - 2

  lemma TurnFits(k: nat, cap: nat)
    requires cap >= 2 && k <= MAX_TICKETS
    ensures 2 * Turn(k, cap) + 1 < U32_LIMIT
    ensures k < MAX_TICKETS ==> 2 * Turn(k, cap) + 2 < U32_LIMIT
  {
    var q := k / cap;
    assert k == q * cap + k % cap;
    Monotone(2, cap, q);
    assert q * 2 <= q * cap;
  }
}
