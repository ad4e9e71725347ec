# Weighted admission-control balancer, modelled in Dafny

The balancer protects one expensive downstream server from many clients. It
caps the number of concurrent `Process` calls at `maxParallelRequests`. Clients
share that capacity in proportion to an integer weight: every client gets
`weight` slots in a weighted slice, and a dispatch loop draws a slot at random,
takes the next request of the drawn client and puts it on a bounded work
queue. A fixed pool of workers drains that queue. A client whose workload
channel closes is cleaned up. `Shutdown` cancels the shared context and waits
for the workers.

The model has four modules, one per source unit:

- `Work` (`work.dfy`): the request record.
- `Clients` (`client.dfy`): the reference client. It has a weight, and its
  workload counts down from `requestCount` to 1. Under cancellation it
  emits a prefix of that countdown.
- `WeightedSlices` (`weighted_slice.dfy`): the slot array and its
  value-to-positions index, as immutable values and pure functions.
- `Balancers` (`balancer.dfy`): the balancer as a state machine. The state
  holds:
  - the weighted slice;
  - `clientsChan`, mapping each client to the requests its channel has yet to
    deliver;
  - the work queue;
  - the position of the dispatch loop (`Polling`, `Holding` a received request
    while sending it, or `Stopped`);
  - one `Idle`/`Busy`/`Exited` flag per worker;
  - the cancellation flag.

  Every goroutine step is one function from state to state. `Next` joins them
  into one transition function. The random slot draw and Go's random choice
  between ready `select` cases are parameters of the steps.

The central invariant is `Balancers.Valid`. It has two parts. The capacity
part, `CapacityValid`, says:

- there is one worker per unit of capacity;
- the queue never holds more than `maxParallelRequests` entries;
- the dispatch loop has stopped only after cancellation.

The index part says:

- the slot index is exact;
- a client has a channel entry iff it holds at least one slot.

`Next` takes the slice removal used by `cleanupClient` as a parameter:
`AsWritten` is the code as written, `Reindexed` the corrected removal (see
Findings). Every step of either program keeps the capacity part
(`NextKeepsCapacity`). That part alone means that at most
`maxParallelRequests` workers are inside `Process` at once
(`ConcurrencyCeiling`). Only the corrected program is proved to keep the
whole invariant (`NextKeepsValid`). As written, a cleanup from a valid state
still keeps "entry iff slot" (`AsWrittenCleanupKeepsEntryIffSlot`). It can,
however, leave the index stale (`RemovalBreaksIndexExact`), and a later
cleanup then strands a client (`AsWrittenCleanupStrandsClient`).

Where the code does something a reader might not expect, the model follows
the code:

- One might expect re-registering a client to add to both its slots and its
  pending requests. The code adds slots but **replaces** the client's channel
  entry (balancer/balancer.go:89). Once the dispatch loop has read the new
  entry, requests still pending on the earlier workload are not dispatched.
  The loop reads the entry without the lock; `Balancers.DispatchStep` under
  "Left out" describes the interleaving the model does not cover.
- One might expect no new `Process` call to begin after cancellation. In the
  code, an idle worker whose queue is non-empty may still take a task,
  because Go picks at random among ready `select` cases
  (balancer/balancer.go:127-137). `WorkerTake` has an `exitFirst` parameter
  for that choice.
- The dispatch loop's send into the work queue does not watch the context
  (balancer/balancer.go:108). A dispatcher `Holding` a request with a full
  queue waits even after cancellation. `Shutdown` still returns, because it
  waits only for the workers.
- With no slots, the loop spins without a backoff (balancer/balancer.go:100).
  The model makes that step a no-op.
- `New` accepts a capacity of 0 (`make` accepts it). It rejects only a
  negative capacity, which makes `make` panic. With capacity 0 there is no
  worker and no queue room, so nothing is ever processed.
- `Register` does not check the weight. A weight below 1 adds no slot but
  still records a channel entry, so that client is never drawn
  (`ZeroWeightRegisterBreaksValid`).

## Model

| member | source | states |
|---|---|---|
| `Clients.New` | client/client.go:17-28 | the new client's `Weight` (client.go:26-28) is the weight passed in, and its uncancelled workload has `max(requestCount, 0)` requests |
| `Clients.Countdown` | client/client.go:37-45 | the sending loop produces `max(n, 0)` requests whose IDs are `n, n-1, …, 1` |
| `Clients.Workload` | client/client.go:32-48 | IDs strictly decrease by one from `requestCount`; each lies in `[1, requestCount]`; uncancelled, exactly `requestCount` are sent; cancelled after k sends, at most k; `requestCount <= 0` sends nothing |
| `Clients.CancelledWorkloadIsPrefix` | client/client.go:38-43 | a cancelled workload is a prefix of the uncancelled countdown |
| `WeightedSlices.PositionsOf` | balancer/weighted_slice.go:18 | the positions a value should have in the index: exactly the slots holding it, in increasing order |
| `WeightedSlices.Reindex` | balancer/weighted_slice.go:18 | the index rebuilt from a slot array is exact |
| `WeightedSlices.NewWeightedSlice` | balancer/weighted_slice.go:22-27 | a fresh slice has no slot and an exact (empty) index |
| `WeightedSlices.AddCopies` | balancer/weighted_slice.go:34-38 | k loop iterations append k copies and record positions `len, …, len+k-1` under the item's value only |
| `WeightedSlices.PositionsAfterCopies` | balancer/weighted_slice.go:34-37 | after appending copies of an item, the item's value gains exactly the new positions and every other value's positions are unchanged |
| `WeightedSlices.AddItem` | balancer/weighted_slice.go:29-39 | appends exactly `max(weight, 0)` copies after the unchanged existing slots; appends the new positions in increasing order to the value's entry; no other key changes; a non-positive weight changes nothing |
| `WeightedSlices.AddItemKeepsIndexExact` | balancer/weighted_slice.go:34-38 | AddItem keeps the index exact |
| `WeightedSlices.GetRandomItem` | balancer/weighted_slice.go:41-48 | needs a non-empty slice (the source panics otherwise); the drawn value owns the drawn slot and, with an exact index, has an index entry |
| `WeightedSlices.Keep` | balancer/weighted_slice.go:60-71 | compaction keeps exactly the slots whose positions are not listed, in their original order |
| `WeightedSlices.RemoveItemByValue` | balancer/weighted_slice.go:50-75 | a value without an entry changes nothing; otherwise it keeps exactly the unlisted slots in order, deletes only that key, leaves every other entry as it was (not re-indexed), and never grows the slice |
| `WeightedSlices.FilterOut` | balancer/weighted_slice.go:50 | the documented meaning of removal: every value but `v` keeps its slot count, `v` has none |
| `WeightedSlices.FilterOutMultiset` | balancer/weighted_slice.go:50 | filtering removes every item with value `v` and keeps every other item with its multiplicity |
| `WeightedSlices.KeepPositionsIsFilterOut` | balancer/weighted_slice.go:60-71 | dropping exactly the positions of `v` is the same as filtering `v` out |
| `WeightedSlices.RemoveExactRemovesAllCopies` | balancer/weighted_slice.go:50-75 | with an exact index, RemoveItemByValue removes all and only the copies of the value |
| `WeightedSlices.LenCountsSlots` | balancer/weighted_slice.go:78-81 | `Len` counts slots: with an exact index, AddItem grows it by the weight (0 if not positive) and RemoveItemByValue shrinks it by the value's slot count |
| `WeightedSlices.AddThenRemoveEmpties` | balancer/weighted_slice.go:22-81 | on a fresh slice, AddItem(v, w) then RemoveItemByValue(v) leaves `Len() == 0` |
| `WeightedSlices.RemovalBreaksIndexExact` | balancer/weighted_slice.go:73-74 | the exact-index precondition is not preserved by RemoveItemByValue |
| `WeightedSlices.StaleIndexAfterRemoval` | balancer/weighted_slice.go:66-74 | removing x from [x, y] moves y's slot to position 0 while y's entry still says 1 |
| `WeightedSlices.StaleIndexRemovesWrongCopy` | balancer/weighted_slice.go:55-74 | add x(1), add y(1), remove x, add z(1), remove y leaves y's slot, drops z's, and leaves z a key without a slot |
| `WeightedSlices.RemoveItemByValueReindexed` | balancer/weighted_slice.go:50-75 | corrected removal: from an exact index it removes exactly the copies of the value, keeps the others in order and leaves the index exact |
| `WeightedSlices.ReindexedRemovalScenario` | balancer/weighted_slice.go:50-75 | on the failing scenario the corrected removal leaves exactly z's slot |
| `Balancers.New` | balancer/balancer.go:64-78 | satisfies the invariant, with exactly `maxParallelRequests` idle workers, an empty queue, no client, and the dispatcher polling |
| `Balancers.Register` | balancer/balancer.go:80-90 | adds `Weight(c)` slots for c at the end and none for anyone else; c's entry becomes the new workload; other entries, the queue and the workers are unchanged |
| `Balancers.RegisterKeepsValid` | balancer/balancer.go:80-90 | with weight at least 1, Register keeps "entry iff slot" and the exact index |
| `Balancers.ZeroWeightRegisterBreaksValid` | balancer/balancer.go:17 | the interface's weight of at least 1 is needed: weight 0 gives an entry without a slot |
| `Balancers.ReRegisterReplacesWorkload` | balancer/balancer.go:87-89 | registering twice adds both weights of slots but keeps only the second workload |
| `Balancers.CleanupClient` | balancer/balancer.go:150-157 | corrected cleanup: removes the client's entry, and (with an exact index) all and only its slots; the index stays exact; other entries are unchanged |
| `Balancers.CleanupKeepsValid` | balancer/balancer.go:150-157 | the corrected cleanup keeps the whole invariant |
| `Balancers.CleanupClientAsWritten` | balancer/balancer.go:150-157 | removes the entry and the index key; removes the client's slots as promised only when the index is exact |
| `Balancers.AsWrittenCleanupKeepsEntryIffSlot` | balancer/balancer.go:150-157 | as written, a cleanup from a valid state still leaves a channel entry exactly for the clients that hold a slot |
| `Balancers.Cleanup` | balancer/balancer.go:150-157 | either removal deletes the client's entry and leaves the other entries, the queue, the workers, the cancellation flag and the dispatcher as they were; from an exact index the slots become those of the other clients, in order |
| `Balancers.AsWrittenCleanupStrandsClient` | balancer/balancer.go:155-156 | as written, register x, y, clean up x, register z, clean up y leaves z with an entry but no slot and y with a slot but no entry |
| `Balancers.DispatchStep` | balancer/balancer.go:93-120 | cancellation stops the loop; no slots changes nothing; a drawn client without entry is skipped; otherwise the head of its pending requests is received (the rest stays in order) or a closed channel cleans up exactly that client, with the given removal; the queue and workers are untouched |
| `Balancers.ForwardStep` | balancer/balancer.go:106-108 | a received request is appended at the back of the work queue, only when the queue has room, so the queue never exceeds its capacity |
| `Balancers.WorkerTake` | balancer/balancer.go:123-139 | an idle worker takes the queue head or exits on cancellation; a busy worker takes nothing; an exited worker does nothing; other workers are unchanged |
| `Balancers.WorkerFinish` | balancer/balancer.go:128-133 | a returning `Process` call makes the worker idle again and changes nothing else |
| `Balancers.ProcessErrorIsOnlyLogged` | balancer/balancer.go:130-133 | an error from `Process` leads to the same state as a success |
| `Balancers.Cancel` | balancer/balancer.go:160-162 | Shutdown sets the cancellation flag and changes nothing else |
| `Balancers.SecondShutdownIsHarmless` | balancer/balancer.go:160-165 | a second Shutdown changes nothing and its wait returns when the first one's did |
| `Balancers.ShutdownSchedule` | balancer/balancer.go:160-165 | after cancellation, each worker can finish its in-flight call and then exit, without taking a task |
| `Balancers.ShutdownTerminates` | balancer/balancer.go:160-165 | from any cancelled state, some schedule makes every worker exit, so `wg.Wait` returns |
| `Balancers.Next` | balancer/balancer.go:93-165 | any step of any goroutine (register, dispatch, forward, worker take and finish, shutdown), with either removal, leaves the capacity and the number of workers unchanged |
| `Balancers.NextKeepsCapacity` | balancer/balancer.go:64-165 | every step of the code as written, and of the corrected code, keeps the capacity part: one worker per unit, queue bound, dispatcher stopped only after cancellation |
| `Balancers.NextKeepsValid` | balancer/balancer.go:64-165 | with the corrected cleanup, every step of every goroutine keeps the whole invariant (capacity part, exact index, entry iff slot) |
| `Balancers.ExitedWorkerStaysExited` | balancer/balancer.go:134-137 | an exited worker stays exited and processes nothing further |
| `Balancers.WorkerPool` | balancer/balancer.go:142-147 | starts exactly n workers, all idle, none inside `Process` |
| `Balancers.InFlight` | balancer/balancer.go:128-129 | no more workers are inside `Process` than there are workers |
| `Balancers.NoneInFlightIffNoneBusy` | balancer/balancer.go:128-129 | no `Process` call is in flight exactly when no worker is busy |
| `Balancers.ShutdownReturns` | balancer/balancer.go:163 | when `wg.Wait` can return, the context is cancelled and no `Process` call is in flight |
| `Balancers.ConcurrencyCeiling` | balancer/balancer.go:63-75 | under the capacity part of the invariant alone, so for the code as written too, concurrent `Process` calls and queued requests each stay within `maxParallelRequests` |
| `Balancers.Pump` | balancer/balancer.go:100-108 | k dispatch rounds on one client append its first k pending requests to the queue in the order sent, with either removal |
| `Balancers.DrainClient` | balancer/balancer.go:100-111 | from a valid state, with either removal, a client's whole workload reaches the queue in order, then the next draw removes its entry and every slot |

## Left out

- Goroutines, channels, `sync.Mutex` and `sync.WaitGroup` are not modelled as
  such. Each locked section is one atomic step. So is each channel operation,
  except in the dispatch loop, where one step covers a whole iteration (see
  `Balancers.DispatchStep` below). A cancellation that lands in the middle of
  a dispatch iteration is ordered after that step.
- The unlocked read of `clientsChan` at balancer/balancer.go:103 is a data race
  with `Register` and `cleanupClient`. Apart from the interleaving described
  under `Balancers.DispatchStep`, the model has no memory-model effects.
- The random source (`rand.Seed`, `rand.Intn`) and Go's random `select` choice
  are parameters. The statistical fairness of the draw (share w_i/Σw) is not
  modelled.
- Logging (`log.Printf`) is left out.
- The server's `Process` is opaque. Inside it, a worker is `Busy`. Its return
  is `WorkerFinish`, with a flag saying whether it failed. The context passed
  to `Process` is not modelled. service/the_service.go is not part of this
  model.
- main.go (process setup, log file, timeouts) is not part of this model.
- A client goroutine is represented only by the sequence it will send. The
  unbuffered channel's rendezvous is folded into the dispatcher's receive.
- Go pointer identity of `*Client` is a `handle` field.
- Timing, the hot spin with an empty slice, and the spin on a slot whose
  client has no entry are not modelled. Such steps are no-ops.
- `Balancers.Valid` does not track registration history. "A client's slot
  count equals its cumulative registered weight" is stated per call
  (`Register`, `CleanupClient`), not as a history invariant.
- `Balancers.DrainClient`: assumes the work queue has room for all of the
  client's pending requests. It does not interleave worker steps.
- `Balancers.DispatchStep`: one step covers the unlocked read of the drawn
  client's entry (balancer/balancer.go:103), the receive from that channel
  (:106) and, on a closed channel, the cleanup (:111). In Go, a `Register` of
  the same client can run between the read and the receive. The loop then
  still receives from the old channel, so one more request of the earlier
  workload may be dispatched. When the old channel closes, its cleanup deletes
  the new entry and all of the client's slots, and the new workload is never
  dispatched. The model cannot produce this interleaving: a channel is
  represented only by its pending requests, without an identity.
- `Balancers.CleanupClient`: this is the corrected cleanup, whose removal
  re-indexes the slice; "the index stays exact" holds only for it. The code as
  written is `CleanupClientAsWritten`, which can leave the index stale
  (`RemovalBreaksIndexExact`).
- `Balancers.CleanupKeepsValid`: proved for the corrected cleanup only. As
  written, a cleanup keeps "entry iff slot" (`AsWrittenCleanupKeepsEntryIffSlot`)
  but may break the exact index, and a later one can strand a client
  (`AsWrittenCleanupStrandsClient`).
- `Balancers.NextKeepsValid`: proved for the corrected program
  (`Next(b, a, Reindexed)`) only. For the code as written, only the capacity
  part is proved to be kept (`NextKeepsCapacity`). The index part is not kept,
  as the finding shows.
- `Balancers.Pump`: the order requests reach the queue is shown only for k
  consecutive draws of the same slot, with room in the queue for all k and no
  other step in between. There is no per-client FIFO invariant over arbitrary
  interleavings, because a queued request does not record which client sent
  it.

## Findings

| source | as written | input that shows it | evidently intended | confidence | as-written member | corrected member |
|---|---|---|---|---|---|---|
| balancer/weighted_slice.go:66-74 | `RemoveItemByValue` compacts `elements` but keeps every other key's old positions in `indexMap` | AddItem(A,1), AddItem(B,1), RemoveItemByValue(A), AddItem(C,1), RemoveItemByValue(B): B's slot stays, C's slot is removed. In the balancer, C keeps a channel entry without a slot, so its requests are never dispatched. B keeps a slot without an entry. | every remaining value's positions follow the compaction, so each removal removes all and only the copies of its value | high; not executed | `WeightedSlices.StaleIndexRemovesWrongCopy` | `WeightedSlices.RemoveItemByValueReindexed` |
