# Verified models of the interview exercises

Models, in Dafny 4.11, of the reference solutions embedded in twelve exercises' `SOLUTION.md` files, and proofs
of what these solutions promise. `dafny verify dfyconfig.toml` checks everything.

## Concurrent protocols

`MpmcQueue`, `McsLock`, `LockFreeStack`, `SpinBarrier`, `RwSpinLock` and `RiskGate` are state machines. A state
holds the shared variables, one program counter per thread with the locals it needs, and history that no step
reads (what was sent and received, arrivals and grants, reservations). One call of `Step` (or `Act`) is one atomic
load, store, exchange or compare-and-swap by one thread; a weak compare-and-swap may fail spuriously; the threads,
their number and their interleaving are arbitrary. `Runs` defines runs and reachable states and carries an
inductive invariant along them. Each module states its invariant, proves it step by step (`InvStep`), and derives
the promises: the queue and the stack refine a sequential queue and stack step by step, the locks exclude, the
barrier keeps rounds apart, and the gate's packed word is an exact record.

`QueueCalls`, `McsCalls`, `StackCalls`, `BarrierProgress`, `RwLockCalls` and `GateCalls` say what this means for the
callers. They keep a record of calls outside the state machines -- who called what with which argument, and what
the thread's accesses have done since -- and prove that every call returns having done just what it was asked for,
once, and when it returns: alone, or in the presence of others where the protocol promises that.

Assumed: atomic accesses interleave in some sequential order, whatever their `memory_order`; the counters `head_`,
`tail_` and `generation_` do not wrap; waiters, nodes and reservations are used as the contracts demand (a waiter
is in one call at a time, exactly `n` threads use the barrier, a reservation is released at most once).

## Sequential structures

- `OrderBook` and `MatchingEngine`: the price-time book. The two `std::map`s are sequences of levels in iteration
  order. The specification flattens a side into one list in priority order and consumes its crossing prefix.
- `ProbeTable` and `HashMap`: the open-addressing table, for every hash function, and the map it stands for.
  For power-of-two capacities the load check `size + 1 > 0.7 * capacity` is `10 * (size + 1) > 7 * capacity`.
- `Adjacency`, `DepthFirst`, `BreadthFirst`, `BreadthFirstLoops`, `CycleSearch` and `GraphSearch`: graphs, walks
  and the five searches. `std::set` neighbourhoods are ascending sequences; stacks have their top first.
- `VarintCodec`: LEB128 (section 7.6 of the DWARF Debugging Information Format, Version 5) and the frame.
- `BinarySearchTree`: nodes rewired in place; a ghost shape records which tree they form. A `Node*&` parameter is
  an argument and a result that the caller stores back.
- `BinaryHeap`: the heap under any strict weak order, and in-place heapsort.

Exceptions are `None` or `false` results. `Arithmetic`, `Calls`, `FiniteSets` and `Options` are shared helpers.

## Where the code and its promises differ

- The queue's usable capacity is documented as `capacity`, but one slot does not work: `DeliveryIffTwoSlots`.
- `McsLock::unlock` explains a lost CAS by a new successor; a weak CAS may also fail without one, and then the
  unlock waits for ever (`SpuriousFailureCanStall`). Exclusion and order survive, `StandstillIff` says that
  nothing else can stop the queue, and without such failures it drains (`QueueDrains`).
- `RiskGate` assumes that the limits fit the 32-bit fields (`ExactIffFieldsHoldLimits` shows that they must), and
  `release` does not check the position limit, nor the field: `ReleasePassesPositionLimit`, `ReleaseLeavesField`.
  Releases are safe exactly while gross bought and gross sold are within the limit (`ReleasesStayWithinIff`).
- The copy constructor of `HashMap` drops tombstones but keeps slot positions, so a copy can lose keys:
  `CopyFindsAllIff`, `EraseThenCopy`. `clear` keeps tombstone tags and zeroes their counter, so that a later
  insertion can wrap the counter below zero (`Clear`, `ClearWrapsCounter`); no operation reads the counter.
- `encode_frame` writes the payload length modulo 2^32: `FrameRoundTripIff`.
- The cycle check is explained by a depth-first descent without cross edges. Vertices are marked when pushed, so
  the traversal is not depth-first; the answer is right all the same (`DetectCycle`), for the reason that every
  scanned edge is a tree link or closes a cycle (`MarkedNeighbour`).
- The text of the reader-writer exercise suggests draining readers before claiming the flag; the model follows the
  reference code, which claims first.
- `MatchingEngine::index_` keeps the entries of filled orders; the model's index may hold ids that rest no more.

## Model

| member | source | states |
|---|---|---|
| `MpmcQueue.InvInit` | exercises/concurrency/05_ring_buffer_mpmc/SOLUTION.md:59-63 | The constructor, which gives slot `i` sequence number `i`, establishes the queue invariant for two or more slots |
| `MpmcQueue.InvStep` | exercises/concurrency/05_ring_buffer_mpmc/SOLUTION.md:76-144 | Every atomic access of any thread keeps the invariant: per slot, the sequence number moves through p (free for ticket p), p+1 (published), p+N (free for the next ticket), and each ticket has at most one producer and one consumer at work |
| `MpmcQueue.StepRefinesFifo` | exercises/concurrency/05_ring_buffer_mpmc/SOLUTION.md:76-144 | Every access is invisible or one operation of a bounded FIFO queue: a successful tail CAS appends to a queue that is not full, a successful head CAS takes the oldest element, and that element is what the popping thread copies out |
| `MpmcQueue.EmptyVerdict` | exercises/concurrency/05_ring_buffer_mpmc/SOLUTION.md:79-92 | A step decides that `try_pop` finds "empty" if and only if it looks at the current head and the queue is empty or the oldest claimed ticket has not been published yet; no other step decides it |
| `MpmcQueue.FullVerdict` | exercises/concurrency/05_ring_buffer_mpmc/SOLUTION.md:106-121 | A step decides that `try_enqueue` finds "full" if and only if it looks at the current tail and all slots are taken or the consumer of the slot still holds it; no other step decides it |
| `MpmcQueue.Conservation` | exercises/concurrency/05_ring_buffer_mpmc/SOLUTION.md:76-144 | When no call is under way, everything sent has been received or lies published in its slot, ticket by ticket: nothing is lost, duplicated or half-written |
| `MpmcQueue.RunsKeepInvariant` | exercises/concurrency/05_ring_buffer_mpmc/SOLUTION.md:59-144 | For two or more slots the invariant holds in every state of every run |
| `MpmcQueue.RunsExtend` | exercises/concurrency/05_ring_buffer_mpmc/SOLUTION.md:76-144 | Along every run tickets keep the value they were claimed with, and what has been received stays received |
| `MpmcQueue.OneSlotMisdelivers` | exercises/concurrency/05_ring_buffer_mpmc/SOLUTION.md:59-144 | With one slot there is a run in which a consumer receives the value of the next ticket instead of its own |
| `MpmcQueue.DeliveryIffTwoSlots` | exercises/concurrency/05_ring_buffer_mpmc/SOLUTION.md:59-144 | Every received value is the one sent under the same ticket, in every reachable state, if and only if the capacity is at least two |
| `QueueCalls.LogStep` | exercises/concurrency/05_ring_buffer_mpmc/SOLUTION.md:69-144 | Every access keeps the record of calls: what the calling thread has done to the queue so far, by where it stands in its call |
| `QueueCalls.CallsReturn` | exercises/concurrency/05_ring_buffer_mpmc/SOLUTION.md:69-144 | In every run on two or more slots: when `push(v)` returns, its thread has since the call appended to the queue exactly once, and `v`; when `try_pop` returns a value, its thread has taken the oldest element exactly once, and that value; when it returns false, it has taken nothing |
| `QueueCalls.PushFinishes` | exercises/concurrency/05_ring_buffer_mpmc/SOLUTION.md:69-123 | A push that runs alone and has claimed or finds room returns, and has appended its argument unless it had before |
| `QueueCalls.PushReturnsIff` | exercises/concurrency/05_ring_buffer_mpmc/SOLUTION.md:69-123 | From any state of the queue, a push that runs alone returns if and only if it has claimed or the next slot is free, and then within six accesses: it blocks exactly while there is no room |
| `QueueCalls.PopReturns` | exercises/concurrency/05_ring_buffer_mpmc/SOLUTION.md:76-98 | From any state of the queue, a `try_pop` that runs alone returns within six accesses, and takes an element exactly when the oldest one is published, unless it had decided before |
| `QueueCalls.CallsBegin` | exercises/concurrency/05_ring_buffer_mpmc/SOLUTION.md:69-107 | A call brings an idle thread inside it, with its argument |
| `Arithmetic.WrapIsModulo` | exercises/concurrency/05_ring_buffer_mpmc/SOLUTION.md:79-94 | The slot of a ticket is the ticket modulo the capacity |
| `McsLock.ActStep` | exercises/concurrency/11_mcs_lock/SOLUTION.md:118-148 | Every atomic access keeps the queue order: waiters from exchange to hand-off stand in the implicit list in the order of their exchanges, half-linked or linked, and only the first can hold the lock |
| `McsLock.InvStep` | exercises/concurrency/11_mcs_lock/SOLUTION.md:118-148 | The same with the history of arrivals, grants and releases, across rounds that reuse waiters and across spurious failures of the unlock CAS |
| `McsLock.MutualExclusion` | exercises/concurrency/11_mcs_lock/SOLUTION.md:118-148 | In every reachable state at most one waiter is between `lock` returning and `unlock` handing off |
| `McsLock.FirstComeFirstServed` | exercises/concurrency/11_mcs_lock/SOLUTION.md:122-148 | The order in which `lock` returns is the order of the `tail_.exchange` steps, and those still waiting are exactly the later arrivals |
| `McsLock.StandstillIff` | exercises/concurrency/11_mcs_lock/SOLUTION.md:131-148 | The waiters of a non-empty queue are at a standstill if and only if the only one of them is an unlock that lost its CAS with nobody behind it |
| `McsLock.SpuriousFailureCanStall` | exercises/concurrency/11_mcs_lock/SOLUTION.md:134-143 | One waiter alone and one spurious CAS failure suffice for an unlock that never returns: no step changes that state any more |
| `McsLock.NoStandstillWithoutSpuriousFailure` | exercises/concurrency/11_mcs_lock/SOLUTION.md:118-148 | If the CAS never fails spuriously, a non-empty queue always has a waiter that can move |
| `McsLock.RankFalls` | exercises/concurrency/11_mcs_lock/SOLUTION.md:118-148 | Without arrivals and spurious failures, every access that changes anything brings the queue closer to being empty |
| `McsLock.QueueDrains` | exercises/concurrency/11_mcs_lock/SOLUTION.md:118-148 | Then a queue of n waiters changes at most 9n times, and when nothing can change any more all of them have come and gone |
| `McsCalls.WatchStep` | exercises/concurrency/11_mcs_lock/SOLUTION.md:118-148 | Every access keeps: `lock` has returned to the granted waiters and to no others, `unlock` has returned for the released ones and for no others |
| `McsCalls.CallsReturnInOrder` | exercises/concurrency/11_mcs_lock/SOLUTION.md:118-148 | In every run: `lock` returns in the order of the exchanges on `tail_`, `unlock` returns in the same order, and at most one waiter is between the two; whoever is in the critical section is the last that `lock` returned to |
| `McsCalls.LockArrives` | exercises/concurrency/11_mcs_lock/SOLUTION.md:118-124 | A call of `lock` ends up last in the queue after three accesses of its own, and is inside at once if the queue was empty |
| `McsCalls.LockAndUnlockAlone` | exercises/concurrency/11_mcs_lock/SOLUTION.md:118-148 | On a free lock, an undisturbed `lock` and then `unlock` return, and leave the lock free |
| `LockFreeStack.InvStep` | exercises/concurrency/06_lockfree_stack/SOLUTION.md:77-130 | Every atomic access keeps the invariant: the live chain and the parked nodes are disjoint, each allocated node is in exactly one place, and stale reads still see the `next` they need |
| `LockFreeStack.StepRefinesLifo` | exercises/concurrency/06_lockfree_stack/SOLUTION.md:77-104 | Every access is invisible or one operation of a sequential stack, taking effect at the successful head CAS |
| `LockFreeStack.EmptyVerdict` | exercises/concurrency/06_lockfree_stack/SOLUTION.md:91-93 | A pop that is about to report "empty" has just seen the stack empty |
| `LockFreeStack.PopDelivers` | exercises/concurrency/06_lockfree_stack/SOLUTION.md:96-100 | The value a pop hands out is the value of the node whose CAS it won |
| `LockFreeStack.StepExtends` | exercises/concurrency/06_lockfree_stack/SOLUTION.md:77-130 | No node is freed or reused, none goes back from popped to live, values never change, and a published `next` never changes |
| `LockFreeStack.RunsExtend` | exercises/concurrency/06_lockfree_stack/SOLUTION.md:77-130 | The same between any two states of a run |
| `LockFreeStack.PoppedAtMostOnce` | exercises/concurrency/06_lockfree_stack/SOLUTION.md:90-104 | A node that has been popped is never on the stack again |
| `LockFreeStack.HeadListIsLive` | exercises/concurrency/06_lockfree_stack/SOLUTION.md:77-104 | Following `next` from the head visits the live nodes newest first and then ends: the list is acyclic |
| `LockFreeStack.CellsStep` | exercises/concurrency/06_lockfree_stack/SOLUTION.md:120-130 | Every access keeps each wrapper cell in the hands of one thread or at one position of the retired list |
| `LockFreeStack.DeleteLive` | exercises/concurrency/06_lockfree_stack/SOLUTION.md:62-67 | The first walk deletes the live nodes, newest first |
| `LockFreeStack.DeleteRetired` | exercises/concurrency/06_lockfree_stack/SOLUTION.md:68-74 | The second walk deletes every parked cell and its node, newest first |
| `LockFreeStack.Destroy` | exercises/concurrency/06_lockfree_stack/SOLUTION.md:61-75 | Once all calls have returned, the two walks of the destructor delete every allocated node and every cell exactly once |
| `StackCalls.LogStep` | exercises/concurrency/06_lockfree_stack/SOLUTION.md:77-130 | Every access keeps the record of calls: what the calling thread has done to the stack so far, by where it stands in its call, and the argument each node was made with |
| `StackCalls.CallsReturn` | exercises/concurrency/06_lockfree_stack/SOLUTION.md:77-130 | In every run: when `push(v)` returns, its thread has since the call put something on top exactly once, and `v`; when `try_pop` returns a value, its thread has taken the top exactly once, and that value; when it returns false, it has taken nothing |
| `StackCalls.PopHandsOutArgument` | exercises/concurrency/06_lockfree_stack/SOLUTION.md:77-104 | What a pop hands out is the argument of the push that made its node |
| `StackCalls.StackHoldsArguments` | exercises/concurrency/06_lockfree_stack/SOLUTION.md:77-104 | The stack consists of the arguments of the pushes that made its nodes |
| `StackCalls.CallReturns` | exercises/concurrency/06_lockfree_stack/SOLUTION.md:77-130 | From any state of the stack, a call that runs alone, and whose allocation returns a fresh address, returns within ten accesses, a push with its value on top, a pop with the top taken if there is one, unless the call had taken effect before |
| `StackCalls.CallsBegin` | exercises/concurrency/06_lockfree_stack/SOLUTION.md:77-92 | A call brings an idle thread inside it: a push with its argument due on top, a pop with the top due to go |
| `SpinBarrier.InvStep` | exercises/concurrency/10_spin_barrier/SOLUTION.md:100-112 | Every access keeps the invariant that ties both counters to the rounds of the threads, also between the reset of the count and the store of the generation |
| `SpinBarrier.NobodyPassesEarly` | exercises/concurrency/10_spin_barrier/SOLUTION.md:100-112 | No thread returns from its k-th `wait` before all have entered and arrived in their k-th |
| `SpinBarrier.NobodyLaps` | exercises/concurrency/10_spin_barrier/SOLUTION.md:100-112 | The completed rounds of any two threads differ by at most one |
| `SpinBarrier.GenerationCountsRounds` | exercises/concurrency/10_spin_barrier/SOLUTION.md:100-116 | `generation_` lies between the returns and the arrivals of every thread, and all have arrived once more exactly while the last arriver has still to publish the round |
| `SpinBarrier.SomebodyMoves` | exercises/concurrency/10_spin_barrier/SOLUTION.md:104-111 | When all participants are inside `wait`, one of them can take a step that changes something |
| `BarrierProgress.ProgressFalls` | exercises/concurrency/10_spin_barrier/SOLUTION.md:100-112 | Every change by a thread inside `wait` brings the threads closer to returning |
| `BarrierProgress.BarrierOpens` | exercises/concurrency/10_spin_barrier/SOLUTION.md:100-112 | Threads inside `wait` can change something at most four times each, and when they cannot any more, all have returned from their k-th `wait`, for every k that all have called |
| `BarrierProgress.CallsEnter` | exercises/concurrency/10_spin_barrier/SOLUTION.md:100-101 | A call brings a thread inside `wait` and affects nobody else |
| `RwSpinLock.InvStep` | exercises/concurrency/02_seqlock/SOLUTION.md:83-115 | Every access keeps: the count equals the threads between increment and decrement, the flag has one holder, and a writer inside excludes readers inside |
| `RwSpinLock.WriterExcludesAll` | exercises/concurrency/02_seqlock/SOLUTION.md:83-115 | In every reachable state a writer past its drain loop excludes every reader past its re-check and every other writer |
| `RwSpinLock.ReadersAreCounted` | exercises/concurrency/02_seqlock/SOLUTION.md:83-98 | `readers_` is the number of threads between increment and decrement, readers backing out included |
| `RwSpinLock.SomebodyMoves` | exercises/concurrency/02_seqlock/SOLUTION.md:83-115 | As long as some thread is inside a call or holds the lock, one of those threads has a step that changes something |
| `RwLockCalls.EachCallEntersOnce` | exercises/concurrency/02_seqlock/SOLUTION.md:83-115 | In every run: `lock_read` and `lock_write` return inside the critical section asked for, and the thread is idle again only after having been inside that, once |
| `RwLockCalls.ReaderAdvances` | exercises/concurrency/02_seqlock/SOLUTION.md:83-94 | While the flag is clear, every access of a reader on its way in brings it nearer, and nobody else sets it back |
| `RwLockCalls.ReadersGetIn` | exercises/concurrency/02_seqlock/SOLUTION.md:83-94 | As long as no writer holds the flag, a reader is let in after at most four accesses of its own, whatever the other threads do in between |
| `RwLockCalls.DrainStep` | exercises/concurrency/02_seqlock/SOLUTION.md:83-111 | While the flag holder waits, no access of any thread adds to what it waits for |
| `RwLockCalls.FlagHolderGetsIn` | exercises/concurrency/02_seqlock/SOLUTION.md:83-111 | Whatever all threads do, new readers and writers included, the flag holder is kept waiting by at most three accesses a thread, and while it waits somebody it waits for, or itself, can go on |
| `RwLockCalls.ReadAlone` | exercises/concurrency/02_seqlock/SOLUTION.md:83-98 | With the flag clear, an undisturbed `lock_read` returns with the read lock held, and `unlock_read` gives it back |
| `RwLockCalls.WriteAlone` | exercises/concurrency/02_seqlock/SOLUTION.md:100-115 | On a free lock, an undisturbed `lock_write` returns with the write lock held, and `unlock_write` gives it back |
| `RiskGate.PackingBits` | exercises/domain/03_risk_gate/SOLUTION.md:103-106 | The mask, shift and OR build the sum of the two remainders modulo 2^32, the second times 2^32 |
| `RiskGate.UnpackingBits` | exercises/domain/03_risk_gate/SOLUTION.md:119-120 | The cast and the shift take remainder and quotient by 2^32 |
| `RiskGate.NumberOfPacked` | exercises/domain/03_risk_gate/SOLUTION.md:99-106 | That sum has the two fields of the packed word as remainder and quotient |
| `RiskGate.UnpackPack` | exercises/domain/03_risk_gate/SOLUTION.md:99-106 | Unpacking returns what was packed if and only if the position fits int32 and the notional fits [0, 2^32) |
| `RiskGate.ReservationsRespectLimits` | exercises/domain/03_risk_gate/SOLUTION.md:113-137 | If the fields can hold the limits, every interleaving of reservations of any orders keeps both limits and loses no reservation |
| `RiskGate.ExactIffFieldsHoldLimits` | exercises/domain/03_risk_gate/SOLUTION.md:99-137 | For all limits: the word records the reservations exactly, in every reachable state, if and only if the fields can hold the limits or the limits admit no quantity |
| `RiskGate.CommitRelease` | exercises/domain/03_risk_gate/SOLUTION.md:139-157 | A committed release subtracts exactly its reservation from the notional, so that the clamp at zero never bites, and from the position modulo 2^32 |
| `RiskGate.ReleasesKeepExact` | exercises/domain/03_risk_gate/SOLUTION.md:113-158 | In every run of reservations and releases of orders with non-negative price and quantity, the notional is exactly the outstanding sum and within its limit, and the position is exact if and only if the outstanding position fits 32 bits |
| `RiskGate.PricedGateIsExact` | exercises/domain/03_risk_gate/SOLUTION.md:113-158 | With prices of at least one and a notional limit below 2^31, the whole word is exact in every run |
| `RiskGate.GrossOnlyFalls` | exercises/domain/03_risk_gate/SOLUTION.md:139-158 | Releases, in any number and interleaving, never add to the gross quantity bought or sold |
| `RiskGate.ReleaseAgainst` | exercises/domain/03_risk_gate/SOLUTION.md:139-158 | Everything sold, or everything bought, can be released while the other side stays outstanding |
| `RiskGate.ReleasesStayWithinIff` | exercises/domain/03_risk_gate/SOLUTION.md:139-158 | Whatever is released from a reachable state on, the word stays exact and the position within its limit, if and only if both the gross quantity bought and the gross quantity sold are within it |
| `RiskGate.ReleasePassesPositionLimit` | exercises/domain/03_risk_gate/SOLUTION.md:139-158 | A run that releases a sell and ends with the position beyond its limit |
| `RiskGate.ReleaseLeavesField` | exercises/domain/03_risk_gate/SOLUTION.md:139-158 | A run within the 32-bit limits after which the outstanding position does not fit 32 bits and the word is wrong |
| `GateCalls.LogStep` | exercises/domain/03_risk_gate/SOLUTION.md:113-158 | Every access keeps the record of calls: a call under way has changed nothing, and stands by its order and by the word it read last |
| `GateCalls.ReserveReturns` | exercises/domain/03_risk_gate/SOLUTION.md:113-137 | In every run: `check_and_reserve` returns having decided on the word it read last; if that word plus the order (a buy adds its quantity to the position, a sell subtracts it, both add price times quantity to the notional) is within both limits, exactly this sum has been stored and exactly this reservation made, and otherwise nothing has changed |
| `GateCalls.ReserveHasRead` | exercises/domain/03_risk_gate/SOLUTION.md:113-120 | It has read a word before it returns |
| `GateCalls.ReleaseReturns` | exercises/domain/03_risk_gate/SOLUTION.md:139-158 | In every run: `release` returns having taken the order of its reservation back out of the word it read last, once |
| `GateCalls.CallsReturn` | exercises/domain/03_risk_gate/SOLUTION.md:113-158 | From any reachable state, a call that runs alone returns within two accesses |
| `GateCalls.CallsBegin` | exercises/domain/03_risk_gate/SOLUTION.md:113-147 | A call brings an idle thread inside it, with what its order is worth or with its reservation |
| `OrderBook.ConsumeMeaning` | exercises/domain/06_matching_engine/SOLUTION.md:123-137 | Consuming a flattened side trades with its first orders in priority, each fully but perhaps the last, at their own prices, buying at no more and selling at no less than the limit; it leaves exactly the rest, and stops only when the order is filled, the side is empty, or the first price left is beyond the limit |
| `OrderBook.ConsumeConserves` | exercises/domain/06_matching_engine/SOLUTION.md:123-137 | The flattened side loses exactly what is traded, and what is left is positive |
| `OrderBook.FillOnce` | exercises/domain/06_matching_engine/SOLUTION.md:124-134 | One turn of the sweep loop is one step of consuming the flattened side, with empty queues and levels removed |
| `OrderBook.SweepBook` | exercises/domain/06_matching_engine/SOLUTION.md:121-137 | The sweep loop over levels and queues refines consuming the flattened side |
| `OrderBook.InsertMeaning` | exercises/domain/06_matching_engine/SOLUTION.md:138-141 | A resting bid stands behind all bids of at least its price and ahead of all lower ones; a resting ask behind all asks of at most its price and ahead of all higher ones |
| `OrderBook.AddTailInserts` | exercises/domain/06_matching_engine/SOLUTION.md:138-141 | Appending to the queue of its price level, created if need be, is that insertion into the flattened side |
| `OrderBook.AddTailWellFormed` | exercises/domain/06_matching_engine/SOLUTION.md:138-141 | It keeps levels ordered and non-empty, and the best price is the old best or the new price |
| `OrderBook.FlattenInPriority` | exercises/domain/06_matching_engine/SOLUTION.md:59-67 | A well-formed side flattens to a list in price-time priority with positive quantities |
| `OrderBook.RemoveAtRemoves` | exercises/domain/06_matching_engine/SOLUTION.md:179-184 | Erasing a queue entry, and its level if that empties it, removes just that order from the flattened side |
| `OrderBook.RemoveFromLevel` | exercises/domain/06_matching_engine/SOLUTION.md:175-187 | The search by price and id finds an order if and only if it rests there, and removes just it |
| `MatchingEngine.SweepAndRest` | exercises/domain/06_matching_engine/SOLUTION.md:120-141 | One branch of `add_order`: keeps both sides sound and indexed and the best bid below the best ask, trades nothing beyond the limit, leaves nothing within the limit unless filled, and does to the flattened sides what the specification says |
| `MatchingEngine.AddedConserves` | exercises/domain/06_matching_engine/SOLUTION.md:117-167 | Order quantity = traded + rested; the opposite side falls by the traded amount; trades are with the next orders in priority, at resting prices within the limit; the remainder rests only when the first price left is beyond the limit |
| `MatchingEngine.IndexLocates` | exercises/domain/06_matching_engine/SOLUTION.md:169-172 | A resting order can only be where the index says |
| `MatchingEngine.Withdraw` | exercises/domain/06_matching_engine/SOLUTION.md:175-189 | Removing by the indexed place: true if and only if the id rests on that side, and then only that order goes |
| `MatchingEngine.Engine.constructor` | exercises/domain/06_matching_engine/SOLUTION.md:85 | A new engine is empty and valid |
| `MatchingEngine.Engine.PriceOrder` | exercises/domain/06_matching_engine/SOLUTION.md:98-102 | Bids fall, asks rise, and every bid is below every ask |
| `MatchingEngine.Engine.AddOrder` | exercises/domain/06_matching_engine/SOLUTION.md:117-167 | For an id that does not rest: both sides stay ordered, non-empty per level and positive, the best bid stays below the best ask, every resting id is indexed at its side and price; no trade of a buy is above its price, none of a sell below; if quantity is left, the best ask is above a buy's price, the best bid below a sell's; trades, both flattened sides and index are as specified |
| `MatchingEngine.Engine.CancelOrder` | exercises/domain/06_matching_engine/SOLUTION.md:169-190 | True if and only if the id rests; then exactly that order is removed and the other side is untouched; the index entry goes in any case |
| `ProbeTable.MaskIsModulo` | exercises/containers/04_hash_map/SOLUTION.md:262 | For a power-of-two capacity the mask computes the remainder |
| `ProbeTable.NextProbe` | exercises/containers/04_hash_map/SOLUTION.md:263-268 | The masked increment walks the probe path with wrap-around |
| `ProbeTable.LookupFinds` | exercises/containers/04_hash_map/SOLUTION.md:260-270 | In a sound table lookup succeeds exactly for the keys of the map it stands for, at their slot |
| `ProbeTable.StoppedProbeMisses` | exercises/containers/04_hash_map/SOLUTION.md:263-270 | A probe that stops at an empty slot or after the whole table has missed no occurrence of the key |
| `ProbeTable.InsertKeepsSound` | exercises/containers/04_hash_map/SOLUTION.md:314-332 | Filling a free slot on the path of a new key keeps every path closed and adds exactly that entry |
| `ProbeTable.OverwriteKeepsSound` | exercises/containers/04_hash_map/SOLUTION.md:341-343 | Overwriting the value of a filled slot keeps soundness and changes exactly that entry |
| `ProbeTable.EraseKeepsSound` | exercises/containers/04_hash_map/SOLUTION.md:371-379 | A tombstone keeps every path closed and removes exactly that entry |
| `ProbeTable.ContentsFit` | exercises/containers/04_hash_map/SOLUTION.md:287-304 | A table holds at most as many keys as slots, and as many only when all are filled |
| `ProbeTable.CopyFindsAllIff` | exercises/containers/04_hash_map/SOLUTION.md:206-219 | A copied table finds all keys of the original if and only if no probe path of the original runs over a tombstone |
| `ProbeTable.NextFilled` | exercises/containers/04_hash_map/SOLUTION.md:405-412 | The next filled slot: filled or the end, with nothing filled in between |
| `ProbeTable.VisitsEachOnce` | exercises/containers/04_hash_map/SOLUTION.md:146-153 | Iteration visits every filled slot once, in ascending order, and nothing else |
| `HashMap.FirstEmpty` | exercises/containers/04_hash_map/SOLUTION.md:294 | The unbounded rehash probe terminates when the new table has an empty slot, at the first one of the path |
| `HashMap.ProbeFor` | exercises/containers/04_hash_map/SOLUTION.md:260-270 | The probe loop of `find_node` computes the specified lookup |
| `HashMap.PlaceFor` | exercises/containers/04_hash_map/SOLUTION.md:312-334 | The probe loop of `insert` finds the key, or the first slot of its path that is not filled, or that no slot is empty |
| `HashMap.Rehash` | exercises/containers/04_hash_map/SOLUTION.md:290-298 | Rehashing one pair adds exactly it to the new table |
| `HashMap.RehashAll` | exercises/containers/04_hash_map/SOLUTION.md:287-304 | The new table stands for the same map, is sound and has no tombstones |
| `HashMap.EmptyFilled` | exercises/containers/04_hash_map/SOLUTION.md:382-390 | `clear` empties filled slots and leaves tombstone tags in place |
| `HashMap.HashMap.constructor` | exercises/containers/04_hash_map/SOLUTION.md:196-203 | No table for hint zero, otherwise the smallest doubling of 8 that holds the hint; an empty map |
| `HashMap.HashMap.FindNode` | exercises/containers/04_hash_map/SOLUTION.md:260-270 | Finds exactly the keys of the abstract map, with their values, for every hash function |
| `HashMap.HashMap.Contains` | exercises/containers/04_hash_map/SOLUTION.md:360-362 | True exactly for the keys of the abstract map |
| `HashMap.HashMap.At` | exercises/containers/04_hash_map/SOLUTION.md:346-357 | The value of the abstract map, or the exception on a miss |
| `HashMap.HashMap.Grow` | exercises/containers/04_hash_map/SOLUTION.md:287-304 | Same map, larger power-of-two table without tombstones and with an empty slot; the load bound holds afterwards |
| `HashMap.HashMap.Fill` | exercises/containers/04_hash_map/SOLUTION.md:323-331 | Placing a new pair adds exactly that entry and counts it |
| `HashMap.HashMap.CheckLoad` | exercises/containers/04_hash_map/SOLUTION.md:309-311 | Ahead of an insertion the table doubles, or is allocated, exactly when it may not take one more |
| `HashMap.HashMap.TryInsert` | exercises/containers/04_hash_map/SOLUTION.md:312-334 | The probe loop of an insertion: adds the key unless it is there or no slot is empty |
| `HashMap.HashMap.Insert` | exercises/containers/04_hash_map/SOLUTION.md:308-338 | Adds a new key, leaves a present one alone, returns its slot; size and load bound are kept; the capacity doubles (or becomes 8) if and only if the load check fails, or no slot is empty and the key is new; without growth the key goes to the first slot of its path that is not filled, so tombstones are reused; an accurate tombstone counter stays accurate |
| `HashMap.HashMap.Index` | exercises/containers/04_hash_map/SOLUTION.md:341-343 | `operator[]`: the slot whose value is referred to; an absent key comes to hold the default first |
| `HashMap.HashMap.Assign` | exercises/containers/04_hash_map/SOLUTION.md:341-343 | Storing through that reference sets exactly that entry |
| `HashMap.HashMap.Erase` | exercises/containers/04_hash_map/SOLUTION.md:371-379 | True if and only if the key was there; removes exactly it, by turning its slot into a tombstone; an accurate counter stays accurate for capacities below 2^64 |
| `HashMap.HashMap.Clear` | exercises/containers/04_hash_map/SOLUTION.md:382-394 | Empty map, same storage; the tombstone counter is accurate afterwards if and only if the table held no tombstone |
| `HashMap.InsertedAgrees` | exercises/containers/04_hash_map/SOLUTION.md:323-331 | Putting a key into a tombstone or an empty slot keeps an accurate counter accurate |
| `HashMap.ErasedAgrees` | exercises/containers/04_hash_map/SOLUTION.md:371-379 | So does erasing a key |
| `HashMap.ClearWrapsCounter` | exercises/containers/04_hash_map/SOLUTION.md:323-394 | Insert, erase, clear, insert: the counter stands at 2^64 - 1 and there is no tombstone |
| `HashMap.EraseThenCopy` | exercises/containers/04_hash_map/SOLUTION.md:206-379 | Insert two keys of one hash, erase the first, copy: the copy does not find the second |
| `HashMap.HashMap.Reserve` | exercises/containers/04_hash_map/SOLUTION.md:397-402 | Nothing happens if and only if the capacity is enough; otherwise it becomes at least `n` and less than twice that (or 8); same map, accurate counter kept |
| `HashMap.HashMap.Begin` | exercises/containers/04_hash_map/SOLUTION.md:405-412 | The first filled slot or the end |
| `HashMap.HashMap.Next` | exercises/containers/04_hash_map/SOLUTION.md:146-153 | The next filled slot or the end |
| `Adjacency.SimplePath` | exercises/algorithms/05_graph_search/SOLUTION.md:203-224 | Every walk contains a path between its ends that meets no vertex twice |
| `DepthFirst.VisitAllConcat` | exercises/algorithms/05_graph_search/SOLUTION.md:143-153 | Searching from a concatenated list is searching from its parts in turn |
| `DepthFirst.FilterKeepsVisits` | exercises/algorithms/05_graph_search/SOLUTION.md:150-153 | Leaving visited vertices off the stack changes nothing |
| `DepthFirst.PopKeepsVisits` | exercises/algorithms/05_graph_search/SOLUTION.md:143-153 | Popping a vertex and pushing its unseen neighbours keeps what a recursive search of the stack would visit |
| `DepthFirst.PushUnseen` | exercises/algorithms/05_graph_search/SOLUTION.md:150-153 | The reversed push puts the unseen neighbours on the stack in ascending order |
| `DepthFirst.Dfs` | exercises/algorithms/05_graph_search/SOLUTION.md:135-155 | The explicit-stack search terminates and yields exactly the first-visit order of recursive search over ascending neighbours |
| `DepthFirst.DfsVisitsReachable` | exercises/algorithms/05_graph_search/SOLUTION.md:135-155 | That order lists exactly the reachable vertices, each once |
| `BreadthFirst.DiscoverGrows` | exercises/algorithms/05_graph_search/SOLUTION.md:124-130 | Enqueueing an unseen neighbour extends the search tree by an edge, one step deeper, in order |
| `BreadthFirst.DepthIsDistance` | exercises/algorithms/05_graph_search/SOLUTION.md:112-175 | In a finished search exactly the reachable vertices are found and depths are shortest-walk lengths |
| `BreadthFirst.OrderIsUnique` | exercises/algorithms/05_graph_search/SOLUTION.md:112-133 | Discovery by earliest discoverer and ascending neighbour determines the whole order |
| `BreadthFirstLoops.Explore` | exercises/algorithms/05_graph_search/SOLUTION.md:186-199 | The queue loop, with vertices of earlier components already marked, completes the search of one component |
| `BreadthFirstLoops.Bfs` | exercises/algorithms/05_graph_search/SOLUTION.md:112-133 | `bfs` returns the discovery order of a finished search, the only one possible: exactly the reachable vertices, each once |
| `BreadthFirstLoops.BfsDistance` | exercises/algorithms/05_graph_search/SOLUTION.md:157-175 | Every entry is the length of a shortest walk, or -1 exactly where no walk leads |
| `BreadthFirstLoops.ConnectedComponents` | exercises/algorithms/05_graph_search/SOLUTION.md:177-201 | Disjoint reachability classes covering all vertices, each starting with its smallest vertex, in ascending order of it |
| `CycleSearch.ExtraEdgeClosesCycle` | exercises/algorithms/05_graph_search/SOLUTION.md:212-219 | Two vertices of one tree joined by an edge that is not a tree link lie on a cycle of three or more vertices |
| `CycleSearch.ForestHasNoCycle` | exercises/algorithms/05_graph_search/SOLUTION.md:203-224 | If every edge is a tree link, there is neither a self-loop nor a cycle |
| `CycleSearch.MarkedNeighbour` | exercises/algorithms/05_graph_search/SOLUTION.md:212-219 | A marked neighbour is the parent or proves a cycle, although vertices are marked when pushed |
| `CycleSearch.Scan` | exercises/algorithms/05_graph_search/SOLUTION.md:209-221 | Scanning a popped vertex reports a cycle only if there is one, and otherwise makes all its edges tree links |
| `CycleSearch.DetectCycle` | exercises/algorithms/05_graph_search/SOLUTION.md:203-224 | True if and only if the graph has a self-loop or a simple cycle of length at least three |
| `GraphSearch.InsertMeaning` | exercises/algorithms/05_graph_search/SOLUTION.md:102-107 | Ordered-set insertion keeps order and adds exactly the vertex |
| `GraphSearch.JoinedMeaning` | exercises/algorithms/05_graph_search/SOLUTION.md:99-110 | Inserting at both ends keeps adjacency symmetric and adds exactly that edge |
| `GraphSearch.EdgesGrow` | exercises/algorithms/05_graph_search/SOLUTION.md:99-110 | The set of undirected edges grows by exactly that edge |
| `GraphSearch.Graph.constructor` | exercises/algorithms/05_graph_search/SOLUTION.md:92 | No edges |
| `GraphSearch.Graph.AddEdge` | exercises/algorithms/05_graph_search/SOLUTION.md:94-110 | Rejects vertices out of range; otherwise adds exactly that edge and counts each undirected edge once |
| `GraphSearch.Graph.Bfs` | exercises/algorithms/05_graph_search/SOLUTION.md:112-133 | The discovery order, the only one possible; the exception for a bad start |
| `GraphSearch.Graph.Dfs` | exercises/algorithms/05_graph_search/SOLUTION.md:135-155 | The recursive first-visit order; what is reachable, once each; the exception for a bad start |
| `GraphSearch.Graph.BfsDistance` | exercises/algorithms/05_graph_search/SOLUTION.md:157-175 | Shortest distances, -1 if and only if unreachable; the exception for a bad start |
| `GraphSearch.Graph.ConnectedComponents` | exercises/algorithms/05_graph_search/SOLUTION.md:177-201 | The partition into reachability classes in ascending order of smallest vertex |
| `GraphSearch.Graph.DetectCycle` | exercises/algorithms/05_graph_search/SOLUTION.md:203-224 | True if and only if there is a cycle |
| `VarintCodec.EncodeLength` | exercises/containers/05_varint_codec/SOLUTION.md:159-163 | A number takes at most k bytes if and only if it is below 128^k |
| `VarintCodec.EncodeDecodes` | exercises/containers/05_varint_codec/SOLUTION.md:115-145 | The value of the written bytes is the number, and only the last byte lacks the continuation bit |
| `VarintCodec.EncodeDigits` | exercises/containers/05_varint_codec/SOLUTION.md:115-124 | Byte `i` is digit `i` of the number to base 128, lowest first, with the high bit on all but the last |
| `VarintCodec.VarintRoundTrip` | exercises/containers/05_varint_codec/SOLUTION.md:115-157 | For every 64-bit number and any trailing bytes: one to ten bytes, read back as that number, consuming just them |
| `VarintCodec.ReadsOnce` | exercises/containers/05_varint_codec/SOLUTION.md:127-145 | A stream begins with at most one varint, and it is a 64-bit number |
| `VarintCodec.EncodingIsShortest` | exercises/containers/05_varint_codec/SOLUTION.md:115-163 | No accepted encoding of the number is shorter |
| `VarintCodec.PrefixIsRejected` | exercises/containers/05_varint_codec/SOLUTION.md:127-145 | Nothing can be read from a strict prefix of an encoding |
| `VarintCodec.MaskAndShift` | exercises/containers/05_varint_codec/SOLUTION.md:118-119 | On machine words, mask and shift are remainder and quotient |
| `VarintCodec.OrAdds` | exercises/containers/05_varint_codec/SOLUTION.md:135-138 | On machine words, the shifted OR adds without overlap or overflow, for each of the ten positions |
| `VarintCodec.VarintLen` | exercises/containers/05_varint_codec/SOLUTION.md:159-163 | The number of bytes of the encoding |
| `VarintCodec.WriteVarint` | exercises/containers/05_varint_codec/SOLUTION.md:115-124 | Writes exactly the encoding and leaves the rest of the buffer alone |
| `VarintCodec.ReadVarint` | exercises/containers/05_varint_codec/SOLUTION.md:127-145 | Succeeds if and only if one of the first ten bytes ends the varint and a tenth byte is at most one; value and length are as specified |
| `VarintCodec.EncodeVarint` | exercises/containers/05_varint_codec/SOLUTION.md:149-153 | Writes it if it fits; otherwise 0 and an untouched buffer |
| `VarintCodec.DecodeVarint` | exercises/containers/05_varint_codec/SOLUTION.md:155-157 | Succeeds if and only if the buffer begins with a varint |
| `VarintCodec.LengthRoundTrip` | exercises/containers/05_varint_codec/SOLUTION.md:169-192 | The length field gives back the length modulo 2^32 |
| `VarintCodec.FrameBytes` | exercises/containers/05_varint_codec/SOLUTION.md:165-179 | The layout of a frame: byte `i` of the header is the payload length divided by 256 to the `i`, modulo 256; then the uid as a varint, then the payload |
| `VarintCodec.FrameGives` | exercises/containers/05_varint_codec/SOLUTION.md:165-205 | A frame is read as its uid and the payload cut to its length modulo 2^32 |
| `VarintCodec.FrameRoundTripIff` | exercises/containers/05_varint_codec/SOLUTION.md:165-205 | Decoding inverts encoding if and only if the payload is shorter than 2^32 bytes |
| `VarintCodec.FramePrefixRejected` | exercises/containers/05_varint_codec/SOLUTION.md:185-205 | Every strict prefix of such a frame is rejected |
| `VarintCodec.FrameSize` | exercises/containers/05_varint_codec/SOLUTION.md:181-183 | The length of the frame |
| `VarintCodec.EncodeFrame` | exercises/containers/05_varint_codec/SOLUTION.md:165-179 | Writes the frame if it fits; otherwise 0 and an untouched buffer |
| `VarintCodec.DecodeFrame` | exercises/containers/05_varint_codec/SOLUTION.md:185-205 | Succeeds if and only if the buffer begins with a frame, and returns its message |
| `BinarySearchTree.InsertMeaning` | exercises/algorithms/04_binary_search_tree/SOLUTION.md:190-197 | Keeps search order and adds exactly the key |
| `BinarySearchTree.DeleteMinMeaning` | exercises/algorithms/04_binary_search_tree/SOLUTION.md:212-224 | Taking out the leftmost node keeps search order and removes exactly the smallest key |
| `BinarySearchTree.EraseMeaning` | exercises/algorithms/04_binary_search_tree/SOLUTION.md:199-228 | Keeps search order and removes exactly the key, in all four cases of children |
| `BinarySearchTree.InOrderAscends` | exercises/algorithms/04_binary_search_tree/SOLUTION.md:240-245 | The traversal is the strictly ascending list of the keys |
| `BinarySearchTree.AsManyKeysAsNodes` | exercises/algorithms/04_binary_search_tree/SOLUTION.md:115-129 | A search tree has as many keys as nodes |
| `BinarySearchTree.SplicedSpine` | exercises/algorithms/04_binary_search_tree/SOLUTION.md:213-224 | Hanging the successor's right subtree in its place turns the heap structure into the tree without its smallest key |
| `BinarySearchTree.InsertNode` | exercises/algorithms/04_binary_search_tree/SOLUTION.md:190-197 | The nodes come to form the tree with the key; true exactly for a new key |
| `BinarySearchTree.Splice` | exercises/algorithms/04_binary_search_tree/SOLUTION.md:212-224 | The successor walk and splice rewire the nodes to the tree without the key, in place |
| `BinarySearchTree.EraseNode` | exercises/algorithms/04_binary_search_tree/SOLUTION.md:199-228 | The nodes come to form the tree without the key; true exactly for a key that was there |
| `BinarySearchTree.CollectInOrder` | exercises/algorithms/04_binary_search_tree/SOLUTION.md:240-245 | Appends the in-order keys |
| `BinarySearchTree.Search` | exercises/algorithms/04_binary_search_tree/SOLUTION.md:131-138 | Finds exactly the keys of the tree |
| `BinarySearchTree.NearestFrom` | exercises/algorithms/04_binary_search_tree/SOLUTION.md:150-162 | The single walk returns the key at the least distance, on either side, and the smaller of two |
| `BinarySearchTree.NearestIsUnique` | exercises/algorithms/04_binary_search_tree/SOLUTION.md:150-162 | There is only one such key |
| `BinarySearchTree.MinFrom` | exercises/algorithms/04_binary_search_tree/SOLUTION.md:230-233 | The smallest key |
| `BinarySearchTree.MaxFrom` | exercises/algorithms/04_binary_search_tree/SOLUTION.md:235-238 | The largest key |
| `BinarySearchTree.BinarySearchTree.Insert` | exercises/algorithms/04_binary_search_tree/SOLUTION.md:115-121 | True exactly for a new key; the key set gains exactly it; `size_` is the number of nodes |
| `BinarySearchTree.BinarySearchTree.Erase` | exercises/algorithms/04_binary_search_tree/SOLUTION.md:123-129 | True exactly for a key that was there; the key set loses exactly it; `size_` is the number of nodes |
| `BinarySearchTree.BinarySearchTree.Contains` | exercises/algorithms/04_binary_search_tree/SOLUTION.md:131-138 | True exactly for the keys |
| `BinarySearchTree.BinarySearchTree.Nearest` | exercises/algorithms/04_binary_search_tree/SOLUTION.md:150-162 | The nearest key, or the exception when empty |
| `BinarySearchTree.BinarySearchTree.Min` | exercises/algorithms/04_binary_search_tree/SOLUTION.md:140-143 | The smallest key, or the exception when empty |
| `BinarySearchTree.BinarySearchTree.Max` | exercises/algorithms/04_binary_search_tree/SOLUTION.md:145-148 | The largest key, or the exception when empty |
| `BinarySearchTree.BinarySearchTree.Sequence` | exercises/algorithms/04_binary_search_tree/SOLUTION.md:164-169 | `in_order`: all keys, strictly ascending, as many as `size_` |
| `BinaryHeap.SinkStep` | exercises/algorithms/06_heap/SOLUTION.md:151-163 | Swapping with the higher child keeps heap order everywhere else, for every strict weak order |
| `BinaryHeap.RiseStep` | exercises/algorithms/06_heap/SOLUTION.md:142-149 | Swapping with a lower parent keeps heap order everywhere else and mends the place left |
| `BinaryHeap.RisenSinks` | exercises/algorithms/06_heap/SOLUTION.md:110-111 | Where sifting up stops, the start index is ready to be sifted down |
| `BinaryHeap.TopIsHighest` | exercises/algorithms/06_heap/SOLUTION.md:91-94 | In heap order nothing sorts above the top |
| `BinaryHeap.Highest` | exercises/algorithms/06_heap/SOLUTION.md:154-158 | The choice among a node and its children is one that no child sorts above |
| `BinaryHeap.DropSwapped` | exercises/algorithms/06_heap/SOLUTION.md:107-108 | Swap with the last and drop removes exactly one element |
| `BinaryHeap.Heap.constructor` | exercises/algorithms/06_heap/SOLUTION.md:137-140 | Linear build makes a heap of exactly the given elements |
| `BinaryHeap.Heap.SiftDown` | exercises/algorithms/06_heap/SOLUTION.md:151-163 | Restores heap order below the start and permutes |
| `BinaryHeap.Heap.SiftUp` | exercises/algorithms/06_heap/SOLUTION.md:142-149 | Restores heap order above the start and permutes |
| `BinaryHeap.Heap.Push` | exercises/algorithms/06_heap/SOLUTION.md:83-84 | A heap with exactly one more element |
| `BinaryHeap.Heap.Top` | exercises/algorithms/06_heap/SOLUTION.md:91-94 | An element that nothing sorts above, or the exception when empty |
| `BinaryHeap.Heap.Pop` | exercises/algorithms/06_heap/SOLUTION.md:96-101 | A heap without exactly the top, or the exception when empty |
| `BinaryHeap.Heap.EraseAt` | exercises/algorithms/06_heap/SOLUTION.md:105-112 | A heap without exactly the element at that index, or the exception out of range |
| `BinaryHeap.Heap.Replace` | exercises/algorithms/06_heap/SOLUTION.md:116-123 | A heap with the new element in the place of exactly the top |
| `BinaryHeap.SwappedTopSinks` | exercises/algorithms/06_heap/SOLUTION.md:192-195 | Moving the top behind the prefix keeps the suffix sorted and the prefix ready to sink |
| `BinaryHeap.SiftDownPrefix` | exercises/algorithms/06_heap/SOLUTION.md:179-190 | Restores heap order in the prefix in place, permutes it and leaves the suffix alone |
| `BinaryHeap.SortStep` | exercises/algorithms/06_heap/SOLUTION.md:192-195 | One round of the sort: the sorted suffix grows by one |
| `BinaryHeap.Heapsort` | exercises/algorithms/06_heap/SOLUTION.md:175-196 | In place, a sorted permutation |

## Left out

- Memory orders weaker than sequential consistency, cache-line alignment, `yield` and backoff, and liveness beyond
  the progress results in the table: nothing is said about fairness, or about calls
  that others overtake for ever.
- Classes for the six concurrent protocols: a method runs alone, so their objects are modelled on values, one
  atomic access at a time, and update in place is captured by the step functions.
- Wrap-around of the 64-bit `head_`, `tail_`, `generation_` and `arrived` counters and of the 32-bit `readers_`.
- 64-bit overflow of quantities, prices and their product in the matching engine and the risk gate.
- Move construction and assignment of `HashMap`, and copies, clones and destruction of all containers except the
  stack's destructor and the hash map's table copy; constness and iterator invalidation.
- MatchingEngine.Engine.AddOrder: requires that the id does not rest, where the code relies on ids never being reused.
- RiskGate.ReleasesStayWithinIff: assumes that some thread is idle and can start a release.
- Object pool, linked list, order gateway, thread pool and executor, `Seqlock<T>`, SPSC ring, spinlock, semaphore,
  symbol table, LRU cache, vector, priority queue, order state machine, order books, OHLCV, statistics, two-pointer
  and sliding-window exercises: not part of this model; they would add easier members or repeat these.
- The memory, pattern and logic exercises whose reference code is not among the modelled files.
