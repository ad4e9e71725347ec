/**
 * The reference client (client/client.go): a fixed weight and a workload that
 * counts down from requestCount to 1, stopping early when the registering
 * caller's context is cancelled.
 */
module Clients {
  import opened Work

  /**
   * A client. `handle` stands for the pointer identity of a `*Client`: two
   * clients built from the same numbers are still different clients.
   */
  datatype Client = Client(handle: nat, requestCount: int, weight: int)

  /** When the context passed to Workload is cancelled, seen from the channel. */
  datatype Cancellation =
    | NeverCancelled
      /** The goroutine observed cancellation after `sent` successful sends. */
    | CancelledAfter(sent: nat)

  function Weight(c: Client): int
  {
    c.weight
  }

  /** The constructor; `handle` is the fresh identity the allocation gets. */
  function New(handle: nat, requestCount: int, weight: int): (c: Client)
    ensures Weight(c) == weight
    ensures c.handle == handle
    ensures |Workload(c, NeverCancelled)| == if requestCount > 0 then requestCount else 0
  {
    Client(handle, requestCount, weight)
  }

  /** The requests the sending loop produces when nothing cancels it. */
  function Countdown(n: int): (r: seq<Request>)
    ensures |r| == if n > 0 then n else 0
    ensures forall i :: 0 <= i < |r| ==> r[i].id == n - i
  {
    if n <= 0 then [] else [Request(n)] + Countdown(n - 1)
  }

  /**
   * Everything the workload channel delivers before it is closed: a prefix of
   * the countdown whose length is fixed by the cancellation point.
   */
  function Workload(c: Client, cancel: Cancellation): (r: seq<Request>)
    ensures forall i :: 0 <= i < |r| ==> r[i].id == c.requestCount - i
    ensures forall i :: 0 <= i < |r| ==> 1 <= r[i].id <= c.requestCount
    ensures cancel.NeverCancelled? ==> |r| == if c.requestCount > 0 then c.requestCount else 0
    ensures cancel.CancelledAfter? ==> |r| <= cancel.sent
    ensures cancel.CancelledAfter? && cancel.sent <= c.requestCount ==> |r| == cancel.sent
    ensures c.requestCount <= 0 ==> r == []
  {
    var all := Countdown(c.requestCount);
    match cancel
    case NeverCancelled => all
    case CancelledAfter(k) => if k < |all| then all[..k] else all
  }

  /** A cancelled workload emits a prefix of the uncancelled one. */
  lemma {:induction false} CancelledWorkloadIsPrefix(c: Client, k: nat)
    ensures Workload(c, CancelledAfter(k)) <= Workload(c, NeverCancelled)
  {
    var cut := Workload(c, CancelledAfter(k));
    var all := Workload(c, NeverCancelled);
    assert |cut| <= |all|;
    assert forall i :: 0 <= i < |cut| ==> cut[i] == all[i];
  }
}
