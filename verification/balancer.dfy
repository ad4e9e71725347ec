/**
 * The balancer (balancer/balancer.go) as a state machine over immutable
 * states. The goroutines of the source (the dispatch loop `start`, the
 * workers, the client goroutines, the callers of Register) become atomic
 * steps that interleave in any order; the mutex, the WaitGroup and the
 * channels become fields of the state. The random draw of the weighted slice
 * and Go's random choice between ready `select` cases become parameters.
 */
module Balancers {
  import opened Work
  import opened Clients
  import opened WeightedSlices

  /** Go's int32, the type of maxParallelRequests. */
  type Int32 = x: int | -0x8000_0000 <= x < 0x8000_0000

  /** Where the dispatch loop `start` stands. */
  datatype Dispatcher =
      /** At the top of its loop. */
    | Polling
      /** Received `req` and is sending it to the work queue; this send does not watch the context. */
    | Holding(req: Request)
      /** Returned after seeing the context cancelled. */
    | Stopped

  /** A worker goroutine: waiting in its select, inside `Process`, or returned. */
  datatype Worker = Idle | Busy(task: Request) | Exited

  /**
   * The balancer. `clientsChan[c]` is what client c's workload channel has
   * yet to deliver before it is closed; `[]` is a closed channel. `workQueue`
   * is the buffered channel of capacity maxParallelRequests.
   */
  datatype Balancer = Balancer(
    maxParallelRequests: Int32,
    weightedSlice: WeightedSlice<Client>,
    clientsChan: map<Client, seq<Request>>,
    workQueue: seq<Request>,
    dispatcher: Dispatcher,
    workers: seq<Worker>,
    cancelled: bool)

  /**
   * The capacity part of the invariant: one worker per unit of capacity, the
   * work queue within its capacity, and the dispatch loop stops only after
   * cancellation. The concurrency ceiling rests on this part alone.
   */
  ghost predicate CapacityValid(b: Balancer)
  {
    && 0 <= b.maxParallelRequests
    && |b.workers| == b.maxParallelRequests as int
    && |b.workQueue| <= b.maxParallelRequests as int
    && (b.dispatcher.Stopped? ==> b.cancelled)
  }

  /** A client has a channel entry iff it holds a slot. */
  ghost predicate EntryIffSlot(b: Balancer)
  {
    forall c :: c in b.clientsChan <==> HasSlot(b.weightedSlice, c)
  }

  /** The whole invariant: the capacity part, an exact slot index, and entry iff slot. */
  ghost predicate Valid(b: Balancer)
  {
    CapacityValid(b) && IndexExact(b.weightedSlice) && EntryIffSlot(b)
  }

  /** Every client other than `c` has the same channel entry in `m` and `m'`. */
  ghost predicate OthersUnchanged(m: map<Client, seq<Request>>, m': map<Client, seq<Request>>, c: Client)
  {
    forall d :: d != c ==> (d in m' <==> d in m) && (d in m ==> m'[d] == m[d])
  }

  /** The capacity, the work queue, the workers and the cancellation flag are the same. */
  ghost predicate PoolUnchanged(b: Balancer, r: Balancer)
  {
    && r.maxParallelRequests == b.maxParallelRequests
    && r.workQueue == b.workQueue
    && r.workers == b.workers
    && r.cancelled == b.cancelled
  }

  // ---------------------------------------------------------------------------
  // New, workerPool
  // ---------------------------------------------------------------------------

  function WorkerPool(n: nat): (r: seq<Worker>)
    ensures |r| == n && forall i :: 0 <= i < n ==> r[i] == Idle
    ensures InFlight(r) == 0
  {
    var r := seq(n, _ => Idle);
    NoneInFlightIffNoneBusy(r);
    r
  }

  /**
   * New: a work queue of capacity maxParallelRequests and exactly that many
   * idle workers. A negative capacity makes `make` panic; zero is accepted
   * and gives an unbuffered queue with no worker.
   */
  function New(maxParallelRequests: Int32): (b: Balancer)
    requires 0 <= maxParallelRequests
    ensures Valid(b)
    ensures |b.workers| == maxParallelRequests as int
    ensures forall i :: 0 <= i < |b.workers| ==> b.workers[i] == Idle
    ensures b.workQueue == [] && b.clientsChan == map[] && Len(b.weightedSlice) == 0
    ensures b.dispatcher == Polling && !b.cancelled
  {
    Balancer(maxParallelRequests, NewWeightedSlice(), map[], [], Polling, WorkerPool(maxParallelRequests as nat), false)
  }

  // ---------------------------------------------------------------------------
  // Register, cleanupClient
  // ---------------------------------------------------------------------------

  /**
   * Register: adds Weight(c) slots for c behind the existing ones and points
   * c's entry at a fresh workload, replacing any earlier one; `cancel` is
   * when the caller's context stops that workload.
   */
  function Register(b: Balancer, c: Client, cancel: Cancellation): (r: Balancer)
    ensures r.weightedSlice.elements == b.weightedSlice.elements + Copies(WeightedItem(c, Weight(c)), Weight(c))
    ensures forall d :: Count(r.weightedSlice.elements, d)
                        == Count(b.weightedSlice.elements, d) + (if d == c then Max0(Weight(c)) else 0)
    ensures c in r.clientsChan && r.clientsChan[c] == Workload(c, cancel)
    ensures OthersUnchanged(b.clientsChan, r.clientsChan, c)
    ensures PoolUnchanged(b, r) && r.dispatcher == b.dispatcher
  {
    b.(weightedSlice := AddItem(b.weightedSlice, WeightedItem(c, Weight(c))),
       clientsChan := b.clientsChan[c := Workload(c, cancel)])
  }

  /** Registering a client of weight at least one keeps the invariant. */
  lemma RegisterKeepsValid(b: Balancer, c: Client, cancel: Cancellation)
    requires Valid(b) && Weight(c) >= 1
    ensures Valid(Register(b, c, cancel))
  {
    var r := Register(b, c, cancel);
    AddItemKeepsIndexExact(b.weightedSlice, WeightedItem(c, Weight(c)));
    assert CapacityValid(r);
    forall d
      ensures d in r.clientsChan <==> HasSlot(r.weightedSlice, d)
    {
      assert Count(r.weightedSlice.elements, d)
             == Count(b.weightedSlice.elements, d) + (if d == c then Max0(Weight(c)) else 0);
    }
  }

  /** Without the weight of at least one that the Client interface promises, the invariant breaks. */
  lemma ZeroWeightRegisterBreaksValid()
    ensures Valid(New(1)) && !Valid(Register(New(1), Client(0, 1, 0), NeverCancelled))
  {
    var r := Register(New(1), Client(0, 1, 0), NeverCancelled);
    assert Count(r.weightedSlice.elements, Client(0, 1, 0)) == 0;
  }

  /** Registering twice adds both weights but keeps only the second workload. */
  lemma ReRegisterReplacesWorkload(b: Balancer, c: Client, first: Cancellation, second: Cancellation)
    ensures var r := Register(Register(b, c, first), c, second);
            && r.clientsChan[c] == Workload(c, second)
            && Count(r.weightedSlice.elements, c) == Count(b.weightedSlice.elements, c) + 2 * Max0(Weight(c))
  {
  }

  /**
   * cleanupClient with the corrected removal: c's entry and all of c's slots
   * go, every other entry and slot stays, and the index stays exact.
   */
  function CleanupClient(b: Balancer, c: Client): (r: Balancer)
    ensures c !in r.clientsChan
    ensures OthersUnchanged(b.clientsChan, r.clientsChan, c)
    ensures IndexExact(b.weightedSlice) ==> IndexExact(r.weightedSlice)
                                            && r.weightedSlice.elements == FilterOut(b.weightedSlice.elements, c)
    ensures PoolUnchanged(b, r) && r.dispatcher == b.dispatcher
  {
    b.(clientsChan := b.clientsChan - {c}, weightedSlice := RemoveItemByValueReindexed(b.weightedSlice, c))
  }

  /** Cleanup keeps the invariant. */
  lemma CleanupKeepsValid(b: Balancer, c: Client)
    requires Valid(b)
    ensures Valid(CleanupClient(b, c))
  {
  }

  /**
   * cleanupClient as written, with the removal that does not re-index: the
   * entry goes and the slots are removed as the documented promise says only
   * when the index is exact.
   */
  function CleanupClientAsWritten(b: Balancer, c: Client): (r: Balancer)
    ensures c !in r.clientsChan
    ensures OthersUnchanged(b.clientsChan, r.clientsChan, c)
    ensures IndexExact(b.weightedSlice) ==> r.weightedSlice.elements == FilterOut(b.weightedSlice.elements, c)
    ensures c !in r.weightedSlice.indexMap
    ensures PoolUnchanged(b, r) && r.dispatcher == b.dispatcher
  {
    RemoveExactRemovesAllCopies(b.weightedSlice, c);
    b.(clientsChan := b.clientsChan - {c}, weightedSlice := RemoveItemByValue(b.weightedSlice, c))
  }

  /**
   * From a valid state, one cleanup as written still keeps "entry iff slot":
   * the index is exact beforehand, so exactly c's slots go. What it loses is
   * exactness of the index, which the next cleanup relies on.
   */
  lemma AsWrittenCleanupKeepsEntryIffSlot(b: Balancer, c: Client)
    requires Valid(b)
    ensures EntryIffSlot(CleanupClientAsWritten(b, c))
  {
    var r := CleanupClientAsWritten(b, c);
    forall d
      ensures d in r.clientsChan <==> HasSlot(r.weightedSlice, d)
    {
      assert Count(r.weightedSlice.elements, d) == if d == c then 0 else Count(b.weightedSlice.elements, d);
    }
  }

  /** Which removal cleanupClient uses: the source's, or the one that rebuilds the index. */
  datatype Removal = AsWritten | Reindexed

  /** cleanupClient with the given removal. */
  function Cleanup(b: Balancer, c: Client, removal: Removal): (r: Balancer)
    ensures c !in r.clientsChan
    ensures OthersUnchanged(b.clientsChan, r.clientsChan, c)
    ensures IndexExact(b.weightedSlice) ==> r.weightedSlice.elements == FilterOut(b.weightedSlice.elements, c)
    ensures PoolUnchanged(b, r) && r.dispatcher == b.dispatcher
  {
    match removal
    case AsWritten => CleanupClientAsWritten(b, c)
    case Reindexed => CleanupClient(b, c)
  }

  /**
   * With the removal as written, registering x, y, cleaning up x,
   * registering z and cleaning up y leaves z with a channel entry but no slot
   * (its requests are never dispatched) and y with a slot but no entry.
   */
  lemma AsWrittenCleanupStrandsClient(x: Client, y: Client, z: Client)
    requires x != y && y != z && x != z
    requires Weight(x) == 1 && Weight(y) == 1 && Weight(z) == 1
    ensures var b2 := Register(Register(New(1), x, NeverCancelled), y, NeverCancelled);
            var b4 := Register(CleanupClientAsWritten(b2, x), z, NeverCancelled);
            var b5 := CleanupClientAsWritten(b4, y);
            && z in b5.clientsChan && !HasSlot(b5.weightedSlice, z)
            && y !in b5.clientsChan && HasSlot(b5.weightedSlice, y)
            && !Valid(b5)
  {
    StaleIndexRemovesWrongCopy(x, y, z);
    var b2 := Register(Register(New(1), x, NeverCancelled), y, NeverCancelled);
    var b5 := CleanupClientAsWritten(Register(CleanupClientAsWritten(b2, x), z, NeverCancelled), y);
    assert b5.weightedSlice.elements == [WeightedItem(y, 1)];
    assert 0 in PositionsOf(b5.weightedSlice.elements, y);
  }

  // ---------------------------------------------------------------------------
  // start: the dispatch loop
  // ---------------------------------------------------------------------------

  /**
   * One pass of the loop in `start` up to its receive, with `choice` the
   * slot drawn at random. Cancellation stops the loop; with no slot nothing
   * happens; a drawn client without an entry is skipped; otherwise the next
   * request of that client is received, or, if its channel is closed, the
   * client is cleaned up. A receive never touches the work queue, which is
   * fed only by ForwardStep.
   */
  function DispatchStep(b: Balancer, choice: nat, removal: Removal): (r: Balancer)
    requires choice < Len(b.weightedSlice) || Len(b.weightedSlice) == 0
    ensures PoolUnchanged(b, r)
    ensures !b.dispatcher.Polling? ==> r == b
    ensures b.dispatcher.Polling? && b.cancelled ==> r == b.(dispatcher := Stopped)
    ensures b.dispatcher.Polling? && !b.cancelled && Len(b.weightedSlice) == 0 ==> r == b
    ensures b.dispatcher.Polling? && !b.cancelled && Len(b.weightedSlice) > 0 ==>
              var c := b.weightedSlice.elements[choice].value;
              && (c !in b.clientsChan ==> r == b)
              && (c in b.clientsChan && b.clientsChan[c] != [] ==>
                    && r.dispatcher.Holding?
                    && c in r.clientsChan && [r.dispatcher.req] + r.clientsChan[c] == b.clientsChan[c]
                    && OthersUnchanged(b.clientsChan, r.clientsChan, c)
                    && r.weightedSlice == b.weightedSlice)
              && (c in b.clientsChan && b.clientsChan[c] == [] ==>
                    && r.dispatcher == Polling
                    && c !in r.clientsChan
                    && OthersUnchanged(b.clientsChan, r.clientsChan, c)
                    && (IndexExact(b.weightedSlice) ==> r.weightedSlice.elements == FilterOut(b.weightedSlice.elements, c)))
  {
    match b.dispatcher
    case Holding(_) => b
    case Stopped => b
    case Polling =>
      if b.cancelled then b.(dispatcher := Stopped)
      else if Len(b.weightedSlice) == 0 then b
      else
        var c := GetRandomItem(b.weightedSlice, choice);
        if c !in b.clientsChan then b
        else
          var feed := b.clientsChan[c];
          if feed != [] then
            assert [feed[0]] + feed[1..] == feed;
            b.(clientsChan := b.clientsChan[c := feed[1..]], dispatcher := Holding(feed[0]))
          else Cleanup(b, c, removal)
  }

  /**
   * The send of a received request into the work queue: it lands at the
   * back, and only when the queue has room; otherwise the dispatcher keeps
   * waiting, whether or not the context is cancelled.
   */
  function ForwardStep(b: Balancer): (r: Balancer)
    ensures b.dispatcher.Holding? && |b.workQueue| < b.maxParallelRequests as int ==>
              && r.workQueue == b.workQueue + [b.dispatcher.req]
              && r.dispatcher == Polling
              && r.clientsChan == b.clientsChan && r.weightedSlice == b.weightedSlice
              && r.workers == b.workers && r.cancelled == b.cancelled
    ensures !(b.dispatcher.Holding? && |b.workQueue| < b.maxParallelRequests as int) ==> r == b
    ensures r.maxParallelRequests == b.maxParallelRequests
    ensures |b.workQueue| <= b.maxParallelRequests as int ==> |r.workQueue| <= b.maxParallelRequests as int
  {
    if b.dispatcher.Holding? && |b.workQueue| < b.maxParallelRequests as int then
      b.(workQueue := b.workQueue + [b.dispatcher.req], dispatcher := Polling)
    else b
  }

  // ---------------------------------------------------------------------------
  // worker
  // ---------------------------------------------------------------------------

  /**
   * The select of worker i. An idle worker takes the head of the queue, or
   * returns once the context is cancelled; when both are ready, `exitFirst`
   * is Go's random choice. A busy worker is inside `Process` and takes
   * nothing; a returned worker does nothing.
   */
  function WorkerTake(b: Balancer, i: nat, exitFirst: bool): (r: Balancer)
    requires i < |b.workers|
    ensures r.clientsChan == b.clientsChan && r.weightedSlice == b.weightedSlice && r.dispatcher == b.dispatcher
    ensures r.cancelled == b.cancelled && r.maxParallelRequests == b.maxParallelRequests
    ensures |r.workers| == |b.workers| && forall j :: 0 <= j < |b.workers| && j != i ==> r.workers[j] == b.workers[j]
    ensures !b.workers[i].Idle? ==> r == b
    ensures b.workers[i].Idle? && b.cancelled && (exitFirst || b.workQueue == []) ==>
              r.workers[i] == Exited && r.workQueue == b.workQueue
    ensures b.workers[i].Idle? && b.workQueue != [] && !(b.cancelled && exitFirst) ==>
              r.workers[i] == Busy(b.workQueue[0]) && [b.workQueue[0]] + r.workQueue == b.workQueue
    ensures b.workers[i].Idle? && !b.cancelled && b.workQueue == [] ==> r == b
  {
    if !b.workers[i].Idle? then b
    else if b.cancelled && (exitFirst || b.workQueue == []) then b.(workers := b.workers[i := Exited])
    else if b.workQueue != [] then
      assert [b.workQueue[0]] + b.workQueue[1..] == b.workQueue;
      b.(workers := b.workers[i := Busy(b.workQueue[0])], workQueue := b.workQueue[1..])
    else b
  }

  /**
   * Worker i's `Process` call returns; `failed` says whether it returned an
   * error, which is only logged: the worker goes back to its select either way.
   */
  function WorkerFinish(b: Balancer, i: nat, failed: bool): (r: Balancer)
    requires i < |b.workers|
    ensures b.workers[i].Busy? ==> r.workers == b.workers[i := Idle]
    ensures !b.workers[i].Busy? ==> r == b
    ensures r.clientsChan == b.clientsChan && r.weightedSlice == b.weightedSlice && r.dispatcher == b.dispatcher
    ensures r.workQueue == b.workQueue && r.cancelled == b.cancelled && r.maxParallelRequests == b.maxParallelRequests
  {
    if b.workers[i].Busy? then b.(workers := b.workers[i := Idle]) else b
  }

  /** A Process error changes nothing that a success would not. */
  lemma ProcessErrorIsOnlyLogged(b: Balancer, i: nat)
    requires i < |b.workers|
    ensures WorkerFinish(b, i, true) == WorkerFinish(b, i, false)
  {
  }

  // ---------------------------------------------------------------------------
  // Shutdown
  // ---------------------------------------------------------------------------

  /** The first half of Shutdown: cancel the context. */
  function Cancel(b: Balancer): (r: Balancer)
    ensures r.cancelled
    ensures r.clientsChan == b.clientsChan && r.weightedSlice == b.weightedSlice && r.dispatcher == b.dispatcher
    ensures r.workQueue == b.workQueue && r.workers == b.workers && r.maxParallelRequests == b.maxParallelRequests
  {
    b.(cancelled := true)
  }

  /** The second half of Shutdown: `wg.Wait` returns once every worker has returned. */
  predicate ShutdownReturns(b: Balancer): (r: bool)
    ensures r ==> b.cancelled && InFlight(b.workers) == 0
  {
    NoneInFlightIffNoneBusy(b.workers);
    b.cancelled && forall i :: 0 <= i < |b.workers| ==> b.workers[i] == Exited
  }

  /**
   * After cancellation, workers 0 .. n-1 in turn let their in-flight
   * `Process` call return and then leave their select. No task is taken on
   * the way and the workers from n on are untouched.
   */
  function ShutdownSchedule(b: Balancer, n: nat): (r: Balancer)
    requires b.cancelled && n <= |b.workers|
    ensures r.cancelled && |r.workers| == |b.workers|
    ensures forall i :: 0 <= i < n ==> r.workers[i] == Exited
    ensures forall i :: n <= i < |b.workers| ==> r.workers[i] == b.workers[i]
    ensures r.workQueue == b.workQueue && r.clientsChan == b.clientsChan && r.weightedSlice == b.weightedSlice
    ensures r.maxParallelRequests == b.maxParallelRequests && r.dispatcher == b.dispatcher
  {
    if n == 0 then b
    else
      var a := ShutdownSchedule(b, n - 1);
      WorkerTake(WorkerFinish(a, n - 1, false), n - 1, true)
  }

  /** A second Shutdown cancels nothing new, and its wait returns at once if the first one's did. */
  lemma SecondShutdownIsHarmless(b: Balancer)
    ensures Cancel(Cancel(b)) == Cancel(b)
    ensures ShutdownReturns(b) ==> Cancel(b) == b
  {
  }

  /** Shutdown terminates: from any cancelled state some schedule lets wg.Wait return. */
  lemma ShutdownTerminates(b: Balancer)
    requires b.cancelled
    ensures ShutdownReturns(ShutdownSchedule(b, |b.workers|))
  {
  }

  // ---------------------------------------------------------------------------
  // The state machine
  // ---------------------------------------------------------------------------

  /** The atomic steps of all goroutines. */
  datatype Action =
    | RegisterClient(client: Client, cancel: Cancellation)
    | Dispatch(choice: nat)
    | Forward
    | Take(worker: nat, exitFirst: bool)
    | Finish(worker: nat, failed: bool)
    | Shutdown

  predicate Enabled(b: Balancer, a: Action)
  {
    match a
    case Dispatch(choice) => choice < Len(b.weightedSlice) || Len(b.weightedSlice) == 0
    case Take(i, _) => i < |b.workers|
    case Finish(i, _) => i < |b.workers|
    case _ => true
  }

  /**
   * One step of any goroutine, with cleanupClient using the given removal:
   * `AsWritten` is the program as written, `Reindexed` the corrected one. No
   * step changes the capacity or the number of workers.
   */
  function Next(b: Balancer, a: Action, removal: Removal): (r: Balancer)
    requires Enabled(b, a)
    ensures r.maxParallelRequests == b.maxParallelRequests && |r.workers| == |b.workers|
  {
    match a
    case RegisterClient(c, cancel) => Register(b, c, cancel)
    case Dispatch(choice) => DispatchStep(b, choice, removal)
    case Forward => ForwardStep(b)
    case Take(i, exitFirst) => WorkerTake(b, i, exitFirst)
    case Finish(i, failed) => WorkerFinish(b, i, failed)
    case Shutdown => Cancel(b)
  }

  /** Every step of the program as written, and of the corrected one, keeps the capacity part of the invariant. */
  lemma NextKeepsCapacity(b: Balancer, a: Action, removal: Removal)
    requires CapacityValid(b) && Enabled(b, a)
    ensures CapacityValid(Next(b, a, removal))
  {
  }

  /**
   * With the corrected cleanup, every step keeps the whole invariant, given
   * the interface's promise that weights are at least one.
   */
  lemma NextKeepsValid(b: Balancer, a: Action)
    requires Valid(b) && Enabled(b, a)
    requires a.RegisterClient? ==> Weight(a.client) >= 1
    ensures Valid(Next(b, a, Reindexed))
  {
    var r := Next(b, a, Reindexed);
    match a
    case RegisterClient(c, cancel) => RegisterKeepsValid(b, c, cancel);
    case Dispatch(choice) =>
      if b.dispatcher.Polling? && !b.cancelled && Len(b.weightedSlice) > 0 {
        var c := b.weightedSlice.elements[choice].value;
        if c in b.clientsChan && b.clientsChan[c] == [] {
          assert GetRandomItem(b.weightedSlice, choice) == c;
          assert r == Cleanup(b, c, Reindexed) == CleanupClient(b, c);
          CleanupKeepsValid(b, c);
        } else {
          NextKeepsCapacity(b, a, Reindexed);
          SameIndexKeepsValid(b, r);
        }
      } else {
        NextKeepsCapacity(b, a, Reindexed);
        SameIndexKeepsValid(b, r);
      }
    case _ =>
      NextKeepsCapacity(b, a, Reindexed);
      SameIndexKeepsValid(b, r);
  }

  /** A step that keeps the capacity part, the slots and the set of entries keeps the whole invariant. */
  lemma SameIndexKeepsValid(b: Balancer, r: Balancer)
    requires Valid(b) && CapacityValid(r) && r.weightedSlice == b.weightedSlice
    requires forall d :: d in r.clientsChan <==> d in b.clientsChan
    ensures Valid(r)
  {
  }

  /** A worker that has returned stays returned, whatever step is taken. */
  lemma ExitedWorkerStaysExited(b: Balancer, a: Action, removal: Removal, i: nat)
    requires Enabled(b, a) && i < |b.workers| && b.workers[i] == Exited
    ensures i < |Next(b, a, removal).workers| && Next(b, a, removal).workers[i] == Exited
  {
  }

  /** The number of workers inside a `Process` call. */
  function InFlight(ws: seq<Worker>): (n: nat)
    ensures n <= |ws|
  {
    if ws == [] then 0 else InFlight(ws[..|ws| - 1]) + (if ws[|ws| - 1].Busy? then 1 else 0)
  }

  /** No `Process` call is in flight exactly when no worker is busy. */
  lemma {:induction false} NoneInFlightIffNoneBusy(ws: seq<Worker>)
    ensures InFlight(ws) == 0 <==> forall i :: 0 <= i < |ws| ==> !ws[i].Busy?
  {
    if ws != [] {
      var p := ws[..|ws| - 1];
      NoneInFlightIffNoneBusy(p);
      assert forall i :: 0 <= i < |p| ==> p[i] == ws[i];
    }
  }

  /** The hard requirement: at most maxParallelRequests concurrent `Process` calls. */
  lemma ConcurrencyCeiling(b: Balancer)
    requires CapacityValid(b)
    ensures InFlight(b.workers) <= b.maxParallelRequests as int
    ensures |b.workQueue| <= b.maxParallelRequests as int
  {
  }

  // ---------------------------------------------------------------------------
  // Forwarding order and draining
  // ---------------------------------------------------------------------------

  /**
   * k rounds of the dispatch loop in which the draw lands on slot p and the
   * work queue has room: the first k pending requests of that slot's client
   * enter the back of the work queue in the order the client sent them.
   */
  function Pump(b: Balancer, p: nat, k: nat, removal: Removal): (r: Balancer)
    requires p < Len(b.weightedSlice)
    requires b.dispatcher == Polling && !b.cancelled
    requires b.weightedSlice.elements[p].value in b.clientsChan
    requires k <= |b.clientsChan[b.weightedSlice.elements[p].value]|
    requires |b.workQueue| + k <= b.maxParallelRequests as int
    ensures var c := b.weightedSlice.elements[p].value;
            && r.workQueue == b.workQueue + b.clientsChan[c][..k]
            && c in r.clientsChan && r.clientsChan[c] == b.clientsChan[c][k..]
            && OthersUnchanged(b.clientsChan, r.clientsChan, c)
    ensures r.weightedSlice == b.weightedSlice && r.dispatcher == Polling
    ensures r.workers == b.workers && r.cancelled == b.cancelled && r.maxParallelRequests == b.maxParallelRequests
  {
    if k == 0 then b
    else
      var c := b.weightedSlice.elements[p].value;
      var feed := b.clientsChan[c];
      var a := Pump(b, p, k - 1, removal);
      DispatchForwardRound(a, p, removal);
      assert feed[k - 1..][0] == feed[k - 1] && feed[k - 1..][1..] == feed[k..];
      assert feed[..k - 1] + [feed[k - 1]] == feed[..k];
      ForwardStep(DispatchStep(a, p, removal))
  }

  /** One round of the dispatch loop followed by the send: the client's next request moves to the queue. */
  lemma DispatchForwardRound(a: Balancer, p: nat, removal: Removal)
    requires p < Len(a.weightedSlice) && a.dispatcher == Polling && !a.cancelled
    requires a.weightedSlice.elements[p].value in a.clientsChan
    requires a.clientsChan[a.weightedSlice.elements[p].value] != []
    requires |a.workQueue| < a.maxParallelRequests as int
    ensures var c := a.weightedSlice.elements[p].value;
            var r := ForwardStep(DispatchStep(a, p, removal));
            && r.workQueue == a.workQueue + [a.clientsChan[c][0]]
            && r.clientsChan == a.clientsChan[c := a.clientsChan[c][1..]]
            && r.weightedSlice == a.weightedSlice && r.dispatcher == Polling
            && r.workers == a.workers && r.cancelled == a.cancelled
            && r.maxParallelRequests == a.maxParallelRequests
  {
  }

  /**
   * A client whose channel delivers its pending requests and then closes is
   * drained: all of them reach the work queue in order, and the next draw of
   * it removes its entry and every one of its slots.
   */
  lemma DrainClient(b: Balancer, p: nat, removal: Removal)
    requires Valid(b) && p < Len(b.weightedSlice)
    requires b.dispatcher == Polling && !b.cancelled
    requires b.weightedSlice.elements[p].value in b.clientsChan
    requires |b.workQueue| + |b.clientsChan[b.weightedSlice.elements[p].value]| <= b.maxParallelRequests as int
    ensures var c := b.weightedSlice.elements[p].value;
            var r := DispatchStep(Pump(b, p, |b.clientsChan[c]|, removal), p, removal);
            && r.workQueue == b.workQueue + b.clientsChan[c]
            && c !in r.clientsChan
            && !HasSlot(r.weightedSlice, c)
  {
    var c := b.weightedSlice.elements[p].value;
    var feed := b.clientsChan[c];
    assert feed[..|feed|] == feed;
    assert feed[|feed|..] == [];
  }
}
