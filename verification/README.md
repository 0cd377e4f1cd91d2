# Verified model of the cjobs queues and work distribution

cjobs runs jobs on several threads. This project models the parts whose correctness
depends on how the threads interleave, and the data structures around them:

- the **lock-free queues** of `source/main/cpp/c_queue.cpp`: multi-producer multi-consumer
  (MPMC) and single-producer multi-consumer (SPMC) by tickets and turns, the single-producer
  single-consumer (SPSC) ring with stale copies of the opposite index, and the multi-producer
  single-consumer (MPSC) queue made of up to 64 such rings, a bitmap and a ring of the
  consumer's own;
- the **parallel-for protocol** and the **job graph** of `source/main/cpp/c_job.cpp`.

Each concurrent part is modelled twice.

- As a state machine. Every thread has a program counter, every access of shared memory is a
  step, and a schedule is any sequence of thread moves, of any length and for any number of
  threads; a weak compare-exchange may fail whenever the schedule says so. `Reachable` means
  "as created, after any schedule", and the theorems are about reachable states.
- As a class with the source's fields, whose methods run one call at a time and are proved
  against one bounded FIFO (`BoundedFifo`), or, for the work item, against the state machine.

History fields (what was pushed, who holds which ticket) are read by no step. The `_calls`
files add, for each queue, what whole calls do: an observer folded over the schedule notes
what a call was given and what its own moves did to the shared indices, and this is tied to
what the call returned; and a call that runs alone is shown to return, and with what.

| files | content |
|---|---|
| `tickets.dfy` | slots, turns, 32-bit wrap-around, arithmetic of tickets |
| `wrappers.dfy` | a value that may be missing |
| `turn_consumer.dfy`, `pop_calls.dfy` | `try_pop` and the slots, shared by MPMC and SPMC |
| `mpmc_protocol.dfy`, `mpmc_theorems.dfy`, `mpmc_calls.dfy`, `spmc_protocol.dfy`, `spmc_calls.dfy` | the turn-based queues under interleaving |
| `spsc_protocol.dfy`, `spsc_calls.dfy` | the SPSC ring under interleaving |
| `mpsc_protocol.dfy`, `mpsc_theorems.dfy`, `mpsc_calls.dfy`, `mpsc_overflow.dfy` | the MPSC queue under interleaving |
| `bounded_fifo.dfy`, `turn_queue.dfy`, `spsc_queue.dfy`, `mpsc_queue.dfy`, `local_queue.dfy` | the queues as classes; MPMC and SPMC, whose slots, construction and `try_pop` are the same, share one |
| `parallel_for.dfy`, `work_item.dfy` | a work item and its workers |
| `group_tree.dfy`, `job_graph.dfy` | the tree of groups and jobs, as a value and as linked lists |

## What the code does that its documentation or tests do not say

- **Capacity.** `mpmc_queue_create` and `spmc_queue_create` allocate one slot more than the
  item count (`source/main/cpp/c_queue.cpp:139`, `:283`) and the turn protocol uses every slot,
  so both queues hold `item_count + 1` items; their tests expect a refusal at `item_count`
  (`source/test/cpp/test_queue_mpmc.cpp:28`, `source/test/cpp/test_queue_spmc.cpp:28`). The
  local queue allocates `item_count` slots and keeps one empty, so it holds `item_count - 1`,
  where `source/test/cpp/test_queue_local.cpp:27` expects `item_count`. The constructors of
  `TurnQueue.Queue` and `LocalQueue.Queue` state the capacity of the code.
- **Wrap-around of the 32-bit index.** After 2^32 accepted pushes the MPMC and the SPMC queue
  refuse every push, even when empty, unless they have exactly two slots, when they go on for
  ever (`TurnQueue.PushCheckIff`); `TurnQueue.Exhaust` gets there with any three slots or
  more. The theorems about interleavings hold up to 2^32 - 2 tickets.
- **Completion and reclamation.** The branches at `source/main/cpp/c_job.cpp:328` and `:341`
  test for 0 what `fetch_sub` returns, which is the value before the decrement. No schedule
  takes either branch (`ParallelFor.GuardedBranchesNeverRun`). What is proved instead is when
  the counters themselves reach zero, and what is then true. A loop of length 0 scheduled by
  `s_schedule_for` has a done index of 1 that nothing ever brings down
  (`ParallelFor.EmptyForNeverDone`).
- **Overflow of the consumer ring.** In every configuration of the MPSC queue some schedule
  fires the assertion at `source/main/cpp/c_queue.cpp:618`, by pushing while `inspect` drains
  (`MpscOverflow.OverflowHappens`). It never fires if no push interleaves
  (`MpscTheorems.DrainAloneFits`), nor while no more items are outstanding than the
  producers' rings hold together (`MpscTheorems.BackPressure`).
- **Wrapped ranges.** `s_worker_thread` reads an inspected range while `i < end`
  (`source/main/cpp/c_job.cpp:294`), so of a range that wraps around the ring it reads nothing,
  and gives it up all the same; and it passes the first index of the range to a release that
  asserts `idx == end`, which fails for every range (`MpscQueue.Queue.WorkerTurn`). In every
  configuration this loses an item that was accepted (`MpscQueue.LoseAnItem`). The
  theorems about delivery are for clients that read while `idx != end`, as
  `source/test/cpp/test_queue_mpsc.cpp:38-58` does.

## Model

| member | source | states |
|---|---|---|
| Tickets.SameSlot | source/main/cpp/c_queue.cpp:114-115 | two tickets of one slot are ordered exactly as their rounds and are at least a lap apart, for any capacity |
| Tickets.TurnFits | source/main/cpp/c_queue.cpp:114-115 | with at least two slots no turn up to 2 * turn + 2 wraps below 2^32 - 2 tickets |
| TurnConsumer.PublishEffect | source/main/cpp/c_queue.cpp:64 | storing 2r + 1 over 2r fills that one ticket of all tickets, and empties none |
| TurnConsumer.ReleaseEffect | source/main/cpp/c_queue.cpp:90 | storing 2r + 2 over 2r + 1 empties that one ticket of all tickets |
| TurnConsumer.PopStepInv | source/main/cpp/c_queue.cpp:78-102 | each access of try_pop, by any thread, keeps the invariant that ties tickets, rounds, slots, program counters and returned items together |
| TurnConsumer.PopStepFrame | source/main/cpp/c_queue.cpp:78-102 | a pop changes no item, unpublishes no ticket, never takes the consumer index back or a returned item away |
| MpmcProtocol.OwnersOfOneSlot | source/main/cpp/c_queue.cpp:61-64 | two producer tickets between compare-exchange and turn store never share a slot |
| MpmcProtocol.CheckMatched | source/main/cpp/c_queue.cpp:57-59 | the turn check of a push passes only if the slot's ticket one lap earlier was released and this one is unpublished |
| MpmcProtocol.PushKeeps | source/main/cpp/c_queue.cpp:51-76 | each access of try_push, by any thread, keeps the invariant |
| MpmcProtocol.RunInv | source/main/cpp/c_queue.cpp:51-102 | every interleaving of any number of pushes and pops keeps the invariant |
| MpmcTheorems.SlotOwnership | source/main/cpp/c_queue.cpp:59-65 | of all threads, pushing or popping, at most one is between winning a ticket and storing the turn of a given slot |
| MpmcTheorems.TurnMeaning | source/main/cpp/c_queue.cpp:57-64 | the turn of a slot compared with 2r + 1 tells exactly whether its ticket of round r is unpublished, published, or returned; while it is being filled the turn is 2r |
| MpmcTheorems.CheckStaysValid | source/main/cpp/c_queue.cpp:59-61 | a turn check that passed is still true when the compare-exchange finds the index unmoved, for push and pop |
| MpmcTheorems.Occupancy | source/main/cpp/c_queue.cpp:51-102 | tail <= head <= tail + m_capacity in every reachable state, and head counts the tickets issued |
| MpmcTheorems.ExactlyOnce | source/main/cpp/c_queue.cpp:61-65 | each issued ticket is in exactly one of four places, and its item is there the one pushed |
| MpmcTheorems.PopReturnsItsTicket | source/main/cpp/c_queue.cpp:87-91 | a pop that returns delivers a ticket not delivered before, with the item of that ticket's push |
| MpmcTheorems.QuiescentFifo | source/main/cpp/c_queue.cpp:51-102 | with no pop in flight the items returned, in ticket order, are the first items pushed, and with no push in flight the others are in their slots |
| MpmcTheorems.PushRefused | source/main/cpp/c_queue.cpp:59-73 | whenever try_push returns false, this call loaded its turn at the index it still finds, and has waited at its second load since; at that turn load the ticket a full lap behind was not released, and with no pop in flight the queue held exactly m_capacity items |
| MpmcTheorems.PopRefused | source/main/cpp/c_queue.cpp:85-99 | whenever try_pop returns false, this call loaded its turn at the index it still finds, and has waited at its second load since; at that turn load its ticket was unpublished, and with no push in flight the queue was empty |
| MpmcTheorems.PushCheckIff | source/main/cpp/c_queue.cpp:56-59 | with no pop in flight the turn check at the producer index passes exactly when the queue is not full |
| MpmcTheorems.PopCheckIff | source/main/cpp/c_queue.cpp:83-85 | with no push in flight the turn check at the consumer index passes exactly when the queue is not empty |
| MpmcTheorems.TailGrows | source/main/cpp/c_queue.cpp:87 | over any schedule the consumer index only grows and what was returned stays returned |
| MpmcCalls.MoveLocal | source/main/cpp/c_queue.cpp:51-102 | a move of one thread moves no other thread on |
| MpmcCalls.PushCall | source/main/cpp/c_queue.cpp:51-76 | in every run, a push that returned true was given by the producer index exactly one ticket in that call, which is published and has the item the call was given; one that returned false was given none |
| MpmcCalls.PopCall | source/main/cpp/c_queue.cpp:78-102 | in every run, a pop that returned an item was given exactly one ticket in that call, delivered it, and returned the item of its push; one that returned none was given none |
| MpmcCalls.PopAnswers | source/main/cpp/c_queue.cpp:87-99 | a pop returns an item exactly by the move that delivers it, and returns none only by a move that changes nothing else |
| MpmcCalls.PushFinishes | source/main/cpp/c_queue.cpp:51-76 | from anywhere inside a call, in any state, a push that runs alone without spurious failure returns within six moves |
| MpmcCalls.PopFinishes | source/main/cpp/c_queue.cpp:78-102 | the same for a pop |
| MpmcCalls.PushAlone | source/main/cpp/c_queue.cpp:51-76 | the whole state after a push that runs alone: the item appended and published if the ticket a lap behind was returned, and otherwise false and nothing changed |
| MpmcCalls.PopAlone | source/main/cpp/c_queue.cpp:78-102 | the whole state after a pop that runs alone: the oldest ticket delivered if it is published, and otherwise none and nothing changed |
| SpmcProtocol.CheckOfReleased | source/main/cpp/c_queue.cpp:212-214 | the producer's turn check passes exactly when the ticket a lap behind was released |
| SpmcProtocol.RunInv | source/main/cpp/c_queue.cpp:208-246 | every interleaving of the producer with any number of consumers keeps the weakened invariant |
| SpmcProtocol.EarlyPublish | source/main/cpp/c_queue.cpp:217-218 | tail never passes the published tickets, which are at most the producer index plus one; tail passes that index only between the turn store and the index store |
| SpmcProtocol.ExactlyOnce | source/main/cpp/c_queue.cpp:208-246 | early publication included, each ticket is returned at most once and with its own item |
| SpmcProtocol.QuiescentFifo | source/main/cpp/c_queue.cpp:208-246 | with no pop in flight the items returned are, in ticket order, the first items pushed |
| SpmcProtocol.PushRefusalIff | source/main/cpp/c_queue.cpp:213-214 | try_push refuses exactly when the ticket a lap behind is not yet returned; with no pop in flight, exactly when every slot is filled |
| SpmcProtocol.PopCheckIff | source/main/cpp/c_queue.cpp:228-229 | the turn check at the consumer index passes exactly when that ticket is published |
| SpmcProtocol.PopRefused | source/main/cpp/c_queue.cpp:229-243 | whenever try_pop returns false, this call loaded its turn at the index it still finds, and has waited at its second load since; at that turn load every published ticket had been claimed |
| SpmcCalls.MoveLocal | source/main/cpp/c_queue.cpp:208-246 | a move of one thread moves no other thread on |
| SpmcCalls.PushCall | source/main/cpp/c_queue.cpp:208-220 | in every run, a push that returned true moved the producer index past exactly one ticket, which is published and has the item the call was given; one that returned false moved it past none |
| SpmcCalls.PopCall | source/main/cpp/c_queue.cpp:222-246 | in every run, a pop that returned an item was given exactly one ticket in that call, delivered it, and returned the item of its push; one that returned none was given none |
| SpmcCalls.PopAnswers | source/main/cpp/c_queue.cpp:231-243 | a pop returns an item exactly by the move that delivers it, and returns none only by a move that changes nothing else |
| SpmcCalls.MoveRanks | source/main/cpp/c_queue.cpp:208-220 | the producer is wait-free: within five moves of its own it returns, whatever the consumers do |
| SpmcCalls.PopFinishes | source/main/cpp/c_queue.cpp:222-246 | from anywhere inside a call a pop that runs alone without spurious failure returns within six moves |
| SpmcCalls.PushAlone | source/main/cpp/c_queue.cpp:208-220 | the whole state after a push that runs alone, accepted or refused |
| SpmcCalls.PopAlone | source/main/cpp/c_queue.cpp:222-246 | the whole state after a pop that runs alone, whether it finds its ticket published or not |
| SpscProtocol.FullTest | source/main/cpp/c_queue.cpp:343-351 | comparing the advanced write index with a read index tells exactly whether the counters behind them are capacity - 1 apart |
| SpscProtocol.EmptyTest | source/main/cpp/c_queue.cpp:362-367 | comparing the two indices tells exactly whether the counters behind them are equal |
| SpscProtocol.ProdKeeps | source/main/cpp/c_queue.cpp:340-357 | each access of try_push keeps the invariant |
| SpscProtocol.ConsKeeps | source/main/cpp/c_queue.cpp:379-399 | each access of try_pop_multiple, the slot copies of its loop included, keeps the invariant |
| SpscProtocol.RunInv | source/main/cpp/c_queue.cpp:340-399 | every interleaving of the two threads keeps the invariant |
| SpscProtocol.StaleCaches | source/main/cpp/c_queue.cpp:415-421 | read cache <= read <= write cache <= written <= read cache + capacity - 1 for the counters, and all four indices are these counters modulo the capacity |
| SpscProtocol.NoRace | source/main/cpp/c_queue.cpp:354 | the slot being written is never the one being read nor one still to be read |
| SpscProtocol.Fifo | source/main/cpp/c_queue.cpp:340-399 | items come out as a prefix of what went in, and the rest are in their slots |
| SpscProtocol.RefusalIff | source/main/cpp/c_queue.cpp:347-352 | a call refuses only at its reload, exactly when the ring is full, or empty, at that load |
| SpscProtocol.BatchedPop | source/main/cpp/c_queue.cpp:389-398 | a batch returns the next k items in order, k the least of the count and what the cached write index knows of |
| SpscCalls.MoveLocal | source/main/cpp/c_queue.cpp:340-399 | a move of one side leaves every field of the other side as it is |
| SpscCalls.PushCall | source/main/cpp/c_queue.cpp:340-357 | in every run, a push that returned true added exactly the item it was given, one that returned false nothing |
| SpscCalls.PopCall | source/main/cpp/c_queue.cpp:379-399 | in every run, a batched pop that returned took out exactly what it returned, at most the count it was given: the next items, as many as that count and what the cached write index then knows of allow; with a positive count none only if the ring is empty |
| SpscCalls.MoveRanks | source/main/cpp/c_queue.cpp:340-399 | both sides are wait-free: each move inside a call brings its return nearer and no move of the other side takes it back |
| MpscProtocol.BatchEffect | source/main/cpp/c_queue.cpp:613 | one access of a drain batch: what it takes out of the producer's ring is what it returns, and it returns nothing only if the ring was empty |
| MpscProtocol.ProduceKeeps | source/main/cpp/c_queue.cpp:584-595 | each access of push keeps the invariant, the gap between enqueue and fetch_or included |
| MpscProtocol.ConsumeKeeps | source/main/cpp/c_queue.cpp:597-640 | each consumer access of inspect, read and release keeps the invariant |
| MpscProtocol.RunInv | source/main/cpp/c_queue.cpp:584-640 | every interleaving of all producers with the consumer keeps the invariant |
| MpscTheorems.EndToEnd | source/main/cpp/c_queue.cpp:584-632 | for each producer: items delivered, then those in the consumer ring, in the drain buffer and in its own ring, are exactly its pushes in order |
| MpscTheorems.InspectAgain | source/main/cpp/c_queue.cpp:599-600 | inspecting again before release returns the same range; the range is read to its end exactly when all moved items are delivered |
| MpscTheorems.NothingForgotten | source/main/cpp/c_queue.cpp:589-594 | an item in a producer's ring has its bit set, or its producer is between enqueue and fetch_or, or the drain loop has still to pass that ring |
| MpscTheorems.NothingPending | source/main/cpp/c_queue.cpp:628-640 | release returns 0, and inspect gives up, exactly when no bit is set; then every producer not between enqueue and fetch_or has had all its items delivered |
| MpscCalls.MoveLocal | source/main/cpp/c_queue.cpp:584-640 | a producer moves neither the consumer nor another producer on, nor another bit; the consumer moves no producer on and sets no bit |
| MpscCalls.PushCall | source/main/cpp/c_queue.cpp:584-595 | in every run, a push that succeeded added exactly the item it was given to its own ring, one that failed nothing, and only a success is announced |
| MpscCalls.PushRefusalIff | source/main/cpp/c_queue.cpp:589-591 | a push fails exactly when its ring holds `items` items at the reload of the read index |
| MpscCalls.PushRanks | source/main/cpp/c_queue.cpp:584-595 | a push is wait-free |
| MpscCalls.DirtyByNotice | source/main/cpp/c_queue.cpp:593-602 | over any schedule, a bit that is set was set before or by a fetch_or of its own producer since |
| MpscCalls.ExchangeTakesAll | source/main/cpp/c_queue.cpp:602-604 | the exchange leaves no bit; afterwards a bit is set only by a fetch_or made since, for a push stored since or stored and not yet announced at the exchange |
| MpscCalls.ReleaseAnswersZero | source/main/cpp/c_queue.cpp:602-639 | if no producer announces a push between the exchange and the load in release, release answers 0 |
| MpscCalls.ConsumerAnswers | source/main/cpp/c_queue.cpp:597-640 | a new turn always goes to the bitmap, a range read to its end always leads to the load of the bitmap; release answers by that load, with everything moved delivered; inspect answers false only with nothing held, and otherwise the range of all that is held |
| MpscCalls.TurnFinishes | source/main/cpp/c_queue.cpp:597-640 | a turn of the consumer that runs alone from any state ends: the drain loops terminate, the range is read to its end and release returns, unless the assertion fires |
| MpscTheorems.OverflowIff | source/main/cpp/c_queue.cpp:616-620 | adding to the consumer ring fails exactly when it holds producer_count * items |
| MpscTheorems.PushedBounds | source/main/cpp/c_queue.cpp:686-698 | over the producers: pushes are moved, in hand or waiting, and no ring waits with more than its items |
| MpscTheorems.OverflowNeedsPushes | source/main/cpp/c_queue.cpp:602-624 | from the bitmap exchange on, the assertion fires only if more is pushed than is released, and only with more than producer_count * items outstanding |
| MpscTheorems.BackPressure | source/main/cpp/c_queue.cpp:616-620 | with at most producer_count * items pushed and not released the assertion has not fired |
| MpscTheorems.DrainAloneFits | source/main/cpp/c_queue.cpp:602-624 | a drain with no push interleaved never fires the assertion |
| MpscOverflow.OverflowHappens | source/main/cpp/c_queue.cpp:616-620 | for every producer count and item count some schedule fires the assertion |
| TurnQueue.WrappedTurn | source/main/cpp/c_queue.cpp:114-115 | slot and turn computed from the wrapped index are those of the ticket while the index has not wrapped, and always with two slots |
| TurnQueue.WrapAround | source/main/cpp/c_queue.cpp:56-59 | when the index has wrapped to 0 the turn 0 it expects is the turn of slot 0 exactly if there are two slots |
| TurnQueue.PushCheckIff | source/main/cpp/c_queue.cpp:56-59 | the turn check of a push passes exactly when the queue is not full and either has two slots or has had fewer than 2^32 pushes |
| TurnQueue.PopCheckIff | source/main/cpp/c_queue.cpp:83-85 | the turn check of a pop passes exactly when the queue is not empty, across any wrap-around |
| TurnQueue.PushKeeps | source/main/cpp/c_queue.cpp:61-65 | filling the next slot gives the slots of the queue with one item more |
| TurnQueue.PopKeeps | source/main/cpp/c_queue.cpp:87-91 | emptying the oldest slot gives the slots of the queue with one item less, and its item is the oldest |
| TurnQueue.Queue.constructor | source/main/cpp/c_queue.cpp:133-149 | an empty queue of item_count + 1 items; lines 277-293 do the same for SPMC |
| TurnQueue.Queue.TryPush | source/main/cpp/c_queue.cpp:51-76 | terminates for any number of spurious failures; is the push of the bounded FIFO while tickets are left and refuses afterwards; a refusal changes nothing |
| TurnQueue.Queue.TryPop | source/main/cpp/c_queue.cpp:78-102 | terminates for any number of spurious failures; is the pop of the bounded FIFO, across any wrap-around; lines 222-246 do the same for SPMC |
| TurnQueue.Queue.TryPushSingle | source/main/cpp/c_queue.cpp:208-220 | the push of the bounded FIFO while tickets are left, and refuses afterwards; a refusal changes nothing |
| TurnQueue.PlayAll | source/main/cpp/c_queue.cpp:51-102 | over any operation sequence on a new queue, what was accepted is what was returned followed by what is held, at most m_capacity items; everything is as in the bounded FIFO exactly if the queue has two slots or that FIFO accepts at most 2^32 items |
| TurnQueue.Exhaust | source/main/cpp/c_queue.cpp:56-72 | a queue of three slots or more, empty after 2^32 accepted pushes, refuses a push |
| SpscQueue.Queue.constructor | source/main/cpp/c_queue.cpp:429-444 | an empty ring that holds item_count items in item_count + 1 slots |
| SpscQueue.Queue.TryPush | source/main/cpp/c_queue.cpp:340-357 | the push of the bounded FIFO, however stale the cached read index is |
| SpscQueue.Queue.TryPop | source/main/cpp/c_queue.cpp:359-377 | the pop of the bounded FIFO, however stale the cached write index is |
| SpscQueue.Queue.TakeKnown | source/main/cpp/c_queue.cpp:389-398 | the copying loop takes the least of the count and what the cached write index knows of, in order, and touches nothing behind them |
| SpscQueue.Queue.TryPopMultiple | source/main/cpp/c_queue.cpp:379-399 | equals n successive pops, n the least of the count and what the cached index knows of after the reload; 0 exactly when the ring was empty |
| LocalQueue.Queue.constructor | source/main/cpp/c_queue.cpp:811-825 | an empty queue that holds item_count - 1 items |
| LocalQueue.Queue.TryPush | source/main/cpp/c_queue.cpp:768-780 | the push of the bounded FIFO |
| LocalQueue.Queue.TryPop | source/main/cpp/c_queue.cpp:782-795 | the pop of the bounded FIFO |
| BoundedFifo.FillDrain | source/test/cpp/test_queue_spsc.cpp:24-48 | an empty queue takes any items up to its capacity, refuses the next without change, and gives them back in order until it refuses again |
| MpscQueue.LocalRing.Add | source/main/cpp/c_queue.cpp:516-524 | appends exactly when fewer than capacity - 1 items are held, and otherwise changes nothing |
| MpscQueue.LocalRing.AddMultiple | source/main/cpp/c_queue.cpp:526-534 | succeeds exactly when everything fits; otherwise fills the ring with a prefix |
| MpscQueue.LocalRing.Inspect | source/main/cpp/c_queue.cpp:536-543 | answers whether anything is held, and then the range from reader to writer, which are different |
| MpscQueue.LocalRing.Wraps | source/main/cpp/c_queue.cpp:505-511 | the range from reader to writer wraps exactly when the reader plus the number of items reaches the slot count |
| MpscQueue.LocalRing.Read | source/main/cpp/c_queue.cpp:545-550 | reads the n-th item held and steps to the place of the next |
| MpscQueue.LocalRing.Release | source/main/cpp/c_queue.cpp:552 | gives up exactly the first n items held |
| MpscQueue.LocalRing.ReadRange | source/test/cpp/test_queue_mpsc.cpp:38-51 | a client that reads while idx != end gets everything held, in order |
| MpscQueue.LocalRing.WorkerReads | source/main/cpp/c_job.cpp:291-302 | a client that reads while i < end gets everything held if the range does not wrap, and nothing if it does |
| MpscQueue.ConcatBound | source/main/cpp/c_queue.cpp:686-687 | rings of at most `items` items hold at most producer_count * items together |
| MpscQueue.DrainProducer | source/main/cpp/c_queue.cpp:611-621 | terminates; succeeds exactly when everything fits, and then moves all of it in order; otherwise fills the consumer ring with the oldest items and loses the rest of the batch |
| MpscQueue.CreateProducers | source/main/cpp/c_queue.cpp:696-704 | one empty ring per producer, all distinct |
| MpscQueue.Queue.constructor | source/main/cpp/c_queue.cpp:666-706 | an empty queue with no bit set |
| MpscQueue.Queue.Push | source/main/cpp/c_queue.cpp:584-595 | succeeds exactly for an existing producer with room, appends to that ring only, and sets its bit exactly then |
| MpscQueue.Queue.Inspect | source/main/cpp/c_queue.cpp:597-624 | a non-empty consumer ring stays as it is; an empty one receives the contents of all rings, producer by producer, which are left empty with no bit set; the assertion does not fire |
| MpscQueue.Queue.Refill | source/main/cpp/c_queue.cpp:602-622 | takes the bitmap and drains every ring into the empty consumer ring, in producer order, leaving nothing behind |
| MpscQueue.Queue.Release | source/main/cpp/c_queue.cpp:628-640 | gives up what was read; returns 0 exactly when nothing is held and no bit is set, and then nothing waits anywhere |
| MpscQueue.Queue.WorkerTurn | source/main/cpp/c_job.cpp:284-353 | inspect, read, release as the worker does them: hands out all that is pending if the range does not wrap and none of it if it does, which is exactly when the reader plus the number of items reaches the slot count; leaves the ring empty, and the producers' rings drained if it was empty before; the first index it releases with is never the end |
| MpscQueue.LoseAnItem | source/main/cpp/c_job.cpp:294-353 | in every configuration some accepted item is read by no worker turn and is nowhere afterwards |
| ParallelFor.RangeIff | source/main/cpp/c_job.cpp:318-322 | range k is non-empty exactly below the rounded-up quotient, and holds exactly the iterations j with j / inner = k |
| ParallelFor.OneRange | source/main/cpp/c_job.cpp:226-229 | the done index of 1 that the one-range schedulers set is the number of ranges |
| ParallelFor.RunInv | source/main/cpp/c_job.cpp:312-349 | every interleaving of any number of workers keeps the invariant on claims, counters and execution counts |
| ParallelFor.ExactPartition | source/main/cpp/c_job.cpp:312-324 | no iteration runs twice; iteration j has run exactly if its range was executed; ranges of different indices are disjoint and no two workers hold one index |
| ParallelFor.MoveLocal | source/main/cpp/c_job.cpp:312-349 | a move of one worker moves no other worker on |
| ParallelFor.Quiescence | source/main/cpp/c_job.cpp:338-348 | the reference count is 0 exactly when every worker has left; then every iteration ran once, in (total + inner - 1) / inner ranges, and the done index is 0 |
| ParallelFor.NothingAfterQuiescence | source/main/cpp/c_job.cpp:338-348 | once the reference count is 0 no later step touches the work item |
| ParallelFor.CompletionCounter | source/main/cpp/c_job.cpp:254-327 | the done index is the number of ranges minus the decrements, never negative, and 0 exactly when all ranges are accounted for; then every iteration has run |
| ParallelFor.StaysDone | source/main/cpp/c_job.cpp:327 | no step raises the done index, so that it reaches 0 at most once and stays there |
| ParallelFor.GuardedBranchesNeverRun | source/main/cpp/c_job.cpp:327-347 | the two branches that test the old value for 0 are taken in no schedule; each decrement finds its counter at 1 or more |
| ParallelFor.WorkIndexBounds | source/main/cpp/c_job.cpp:315-319 | the work index is at most the number of ranges plus the number of workers, and bounds on every product and sum formed from it |
| ParallelFor.FitsS32Iff | source/main/cpp/c_job.cpp:315-319 | in no schedule does a worker overflow 32 bits signed, exactly if ranges + workers, (ranges + workers - 1) * inner and total + inner fit |
| ParallelFor.FitsS32 | source/main/cpp/c_job.cpp:315-319 | it suffices that total + workers * inner fits |
| ParallelFor.EmptyForNeverDone | source/main/cpp/c_job.cpp:225-229 | scheduled with length 0 the done index stays 1 in every schedule and nothing runs |
| WorkItem.Work.Parallel | source/main/cpp/c_job.cpp:253-257 | the scheduled work item is the initial state of the protocol |
| WorkItem.Work.For | source/main/cpp/c_job.cpp:225-229 | the one-range work item is the initial state of the protocol for one range |
| WorkItem.Work.Draw | source/main/cpp/c_job.cpp:315 | fetch_add on the work index is a step of the protocol, and returns the old value |
| WorkItem.Work.Execute | source/main/cpp/c_job.cpp:322-324 | running a range adds one to exactly the counts of its iterations, as the step of the protocol |
| WorkItem.Work.CountDone | source/main/cpp/c_job.cpp:327-336 | fetch_sub on the done index with its branch is a step of the protocol |
| WorkItem.Work.Leave | source/main/cpp/c_job.cpp:340-346 | fetch_sub on the reference count with its branch is a step of the protocol |
| WorkItem.Work.RunWorker | source/main/cpp/c_job.cpp:312-349 | the loop of a worker that runs alone terminates, is a schedule of the protocol in which only this worker moves, and ends with it having left |
| WorkItem.Work.RunAll | source/main/cpp/c_job.cpp:274-355 | the workers one after the other run every iteration once and leave both counters at 0 |
| GroupTree.BuildComplete | source/main/cpp/c_job.cpp:538-563 | in the tree that any operations build, each group and each job is listed by the group it belongs to |
| GroupTree.PushGroupWellFormed | source/main/cpp/c_job.cpp:545-554 | pushing a group keeps the lists in creation order, each entry once and under its own parent |
| GroupTree.AddJobWellFormed | source/main/cpp/c_job.cpp:558-563 | adding a job keeps the lists in creation order, each entry once and under its own group |
| GroupTree.PopUndoesPush | source/main/cpp/c_job.cpp:545-556 | operations that pop exactly what they push, and never more, leave the group current that was current before them |
| GroupTree.PushFillPop | source/main/cpp/c_job.cpp:545-556 | in particular a group pushed, filled by such operations, and popped |
| GroupTree.NestedUp | source/main/cpp/c_job.cpp:545-556 | after operations that push d groups more than they pop, and never pop more, the group that was current is d levels up |
| GroupTree.PopOnlyMoves | source/main/cpp/c_job.cpp:556 | a pop changes nothing but the current group, and a push then popped leaves the new group behind |
| GroupTree.WhereItWent | source/main/cpp/c_job.cpp:545-563 | in the tree that any operations build, the group or job of the p-th operation has its name or job and belongs to the group that was current then, whatever follows |
| JobGraph.Node.PushBack | source/main/cpp/c_job.cpp:415-421 | turns a circular doubly linked list into the same list with the node at its end |
| JobGraph.Group.AddSibling | source/main/cpp/c_job.cpp:445-451 | turns a circular doubly linked list into the same list with the group at its end |
| JobGraph.Group.AddChild | source/main/cpp/c_job.cpp:453-463 | the list of children becomes the same list with the group at its end, the empty list included |
| JobGraph.Group.AddJob | source/main/cpp/c_job.cpp:465-473 | the list of jobs becomes the same list with the node at its end, the empty list included |
| JobGraph.WalkForward | source/main/cpp/c_job.cpp:415-421 | following m_next of nodes from the start meets the list in insertion order and returns to the start after a full turn |
| JobGraph.WalkBackward | source/main/cpp/c_job.cpp:415-421 | following m_prev of nodes from the start meets the list in reverse |
| JobGraph.GroupWalkForward | source/main/cpp/c_job.cpp:445-451 | the same forward walk for groups |
| JobGraph.GroupWalkBackward | source/main/cpp/c_job.cpp:445-451 | the same backward walk for groups |
| JobGraph.Graph.ChildWalks | source/main/cpp/c_job.cpp:453-463 | in a valid graph, the walks from the child pointer of any group meet exactly the children the tree lists, forward in order, backward in reverse; no children, no pointer |
| JobGraph.Graph.JobWalks | source/main/cpp/c_job.cpp:465-473 | the same for the jobs of any group |
| JobGraph.PlayAll | source/main/cpp/c_job.cpp:538-563 | after any operations on a reset graph the linked objects are the tree the same operations build |
| JobGraph.Graph.constructor | source/main/cpp/c_job.cpp:538-543 | the linked objects are the tree with only the root "main", its own parent |
| JobGraph.Graph.PushGroup | source/main/cpp/c_job.cpp:545-554 | the linked objects, all old lists and pointers included, are the tree with a new last child, which is current |
| JobGraph.Graph.PopGroup | source/main/cpp/c_job.cpp:556 | the group that the current group's parent pointer names becomes current; at the root it stays the root; no group, node or list changes |
| JobGraph.Graph.AddJob | source/main/cpp/c_job.cpp:558-563 | the linked objects are the tree with a new last job of the current group |

## Left out

- Memory orders, cache lines and alignment: every access is sequentially consistent.
- Allocation: it always succeeds, and the byte sizes, which the code computes in 32 bits, do not wrap; neither does the slot count of the consumer ring, `producer_count * item_count + 1`.
- MpscQueue.Queue.constructor: requires a producer count from 1 to 64; for any other count the code creates no queue.
- MpscQueue.Queue: the bitmap is a set of producer numbers, and the array of ring pointers a sequence; both change only as the source changes them.
- SpscProtocol.ConsKeeps: models try_pop as a batch of one, which makes the same accesses in the same order; the class has it as a method of its own.
- SpscQueue.Queue.TryPopMultiple: requires a positive count, which `queue_dequeue_multiple` checks before the call.
- MpmcTheorems.SlotOwnership: like all theorems about interleaved MPMC and SPMC runs, for at most 2^32 - 2 tickets; beyond that only one-call-at-a-time behaviour is modelled, by the classes.
- TurnQueue.Queue.TryPush: takes the number of spurious compare-exchange failures as a parameter; like the other one-call-at-a-time methods it models no interleaving.
- MpscTheorems.EndToEnd: after the overflow assertion has fired the machine stops; what a build without assertions does from there on, other than that the rest of the batch is lost (MpscQueue.DrainProducer), is not modelled.
- MpscQueue.Queue.WorkerTurn: has no quit ticket, which ends the reading loop early, and does not run the work items it reads.
- ParallelFor.RunInv: a job's execution of a range is one step, which marks the iterations it was given; what the user's function does to other data is not modelled.
- ParallelFor.Quiescence: inner is at least 1, which the division in `s_schedule_parallel` needs, and there is at least one worker; lengths are not negative.
- WorkItem.Work.For: has a length of at least 1; for length 0 see ParallelFor.EmptyForNeverDone.
- ParallelFor.FitsS32Iff: the counters are unbounded integers; this theorem says exactly when the 32-bit ones of the code agree with them, and nothing is said of what happens when they do not.
- WorkItem.Work: how the ticket reaches each worker, the encoding of tickets, and the ownership of work items by contexts.
- JobGraph.Graph.constructor: `setup` leaves `m_jobs` as allocated; it is taken to be null, which is what the code needs.
- JobGraph.Node: the two iteration counts of a node, which `graph_add_job` leaves at 1.
- Signals, waking and sleeping of workers, creation and destruction of the system, registration of threads.
- Job dependencies, scheduling from `job_finished`, `graph_execute` and `m_sorted_jobs`, which the source has as stubs.
- Progress: no claim that a thread among others gets its turn; termination is proved for calls that run alone, and per own move where the code is wait-free.
