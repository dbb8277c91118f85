/** Whole-run properties of the SPSC ring: FIFO delivery over any sequence
    of enqueue and dequeue calls, and the single-threaded unit scenarios of
    the queue's test suite. */
module SpscScenarios {
  import opened Bits
  import opened SpscQueue
  import opened QueueOps
  import opened Wrappers

  /** The ring after a run, the items whose enqueue succeeded, and the items
      successful dequeues delivered, both in call order. */
  datatype Trace<T> = Trace(q: Spsc<T>, accepted: seq<T>, delivered: seq<T>)

  /** Replays the calls in order; `out` is the consumer's receiving object. */
  function Replay<T>(q: Spsc<T>, ops: seq<Op<T>>, out: T): (r: Trace<T>)
    requires Valid(q)
    ensures Valid(r.q) && r.q.cap == q.cap
    decreases |ops|
  {
    if |ops| == 0 then Trace(q, [], [])
    else
      match ops[0]
      case Push(v) =>
        var (ok, q1) := Enqueue(q, v);
        var t := Replay(q1, ops[1..], out);
        Trace(t.q, (if ok then [v] else []) + t.accepted, t.delivered)
      case Pop =>
        var (ok, x, q1) := Dequeue(q, out);
        var t := Replay(q1, ops[1..], x);
        Trace(t.q, t.accepted, (if ok then [x] else []) + t.delivered)
  }

  /** Over any run, what the ring held plus what it accepted is what it
      delivered plus what it still holds, in order. */
  lemma {:induction false} ReplayFifo<T>(q: Spsc<T>, ops: seq<Op<T>>, out: T)
    requires Valid(q)
    ensures var t := Replay(q, ops, out);
            Contents(q) + t.accepted == t.delivered + Contents(t.q)
    decreases |ops|
  {
    if |ops| == 0 {
      assert Contents(q) + [] == [] + Contents(q);
    } else {
      match ops[0]
      case Push(v) =>
        var (ok, q1) := Enqueue(q, v);
        var t := Replay(q1, ops[1..], out);
        ReplayFifo(q1, ops[1..], out);
        PushBookkeeping(Contents(q), if ok then [v] else [], Contents(q1), t.accepted, t.delivered, Contents(t.q));
      case Pop =>
        var (ok, x, q1) := Dequeue(q, out);
        var t := Replay(q1, ops[1..], x);
        ReplayFifo(q1, ops[1..], x);
        PopBookkeeping(Contents(q), if ok then [x] else [], Contents(q1), t.accepted, t.delivered, Contents(t.q));
    }
  }

  /** Starting from an empty ring, whatever the interleaving of calls, the
      consumer receives a prefix of exactly the accepted items, in order,
      none duplicated or lost; the rest is still in the ring. */
  lemma FifoOverAnyRun<T>(cap: nat, ops: seq<Op<T>>, out: T)
    requires cap >= 2 && IsPowerOfTwo(cap)
    ensures var t := Replay(Init(cap), ops, out);
            t.delivered <= t.accepted && t.accepted == t.delivered + Contents(t.q)
  {
    var q := Init(cap);
    ReplayFifo(q, ops, out);
    var t := Replay(q, ops, out);
    assert [] + t.accepted == t.accepted;
  }

  /** An empty ring of capacity `cap`, however it got there: fresh from
      construction or drained by the consumer. */
  ghost predicate EmptyRing<T>(q: Spsc<T>, cap: nat)
  {
    Valid(q) && q.cap == cap && Contents(q) == []
  }

  lemma InitIsEmptyRing<T>(cap: nat)
    requires cap >= 2 && IsPowerOfTwo(cap)
    ensures EmptyRing(Init<T>(cap), cap)
  {
  }

  /** Capacity 2 holds one item: a second enqueue before any dequeue fails,
      and the first item is still the one dequeued. */
  lemma CapacityTwoHoldsOne(q0: Spsc<int>)
    requires EmptyRing(q0, 2)
    ensures var (ok1, q1) := Enqueue(q0, 1);
            var (ok2, q2) := Enqueue(q1, 2);
            var (ok3, v, q3) := Dequeue(q2, 0);
            ok1 && !ok2 && ok3 && v == 1 && Contents(q3) == []
  {
    var (ok1, q1) := Enqueue(q0, 1);
    assert ok1 && Contents(q1) == [1];
    var (ok2, q2) := Enqueue(q1, 2);
    assert !ok2 && Contents(q2) == [1];
    var (ok3, v, q3) := Dequeue(q2, 0);
    assert [1] == [v] + Contents(q3);
  }

  /** Alternating enqueue and dequeue of 0..7 on a capacity-4 ring delivers
      0..7 in order across the wrap-around of both indices. */
  method WrapAround(q0: Spsc<int>) returns (seen: seq<int>, q: Spsc<int>)
    requires EmptyRing(q0, 4)
    ensures seen == [0, 1, 2, 3, 4, 5, 6, 7]
    ensures EmptyRing(q, 4)
  {
    q := q0;
    seen := [];
    var i := 0;
    while i < 8
      invariant 0 <= i <= 8
      invariant EmptyRing(q, 4)
      invariant seen == seq(i, k => k)
    {
      var (ok, q1) := Enqueue(q, i);
      assert ok && Contents(q1) == [i];
      var (ok2, v, q2) := Dequeue(q1, 0);
      assert [i] == [v] + Contents(q2);
      seen, q, i := seen + [v], q2, i + 1;
    }
  }

  /** approx_size on one thread: 0 when empty, positive after an enqueue,
      0 again after the dequeue. */
  lemma ApproxSizeSingleThread(q0: Spsc<int>)
    requires EmptyRing(q0, 8)
    ensures var (ok1, q1) := Enqueue(q0, 1);
            var (ok2, v, q2) := Dequeue(q1, 0);
            ApproxSize(q0) == 0 && ok1 && ApproxSize(q1) > 0 && ok2 && ApproxSize(q2) == 0
  {
    var (ok1, q1) := Enqueue(q0, 1);
    assert ok1 && Contents(q1) == [1];
    var (ok2, v, q2) := Dequeue(q1, 0);
    assert [1] == [v] + Contents(q2);
    ApproxSizeIsCount(q0);
    ApproxSizeIsCount(q1);
    ApproxSizeIsCount(q2);
  }

  /** Emplace constructs one slot object, dequeue moves it out and destroys
      it, and after clear no slot object is left alive. */
  method EmplaceConstructsAndDestroys(q0: Spsc<int>) returns (x: int, q: Spsc<int>)
    requires EmptyRing(q0, 4)
    ensures x == 7
    ensures |q.buf| == q.cap && forall i :: 0 <= i < q.cap ==> q.buf[i].None?
  {
    var (ok1, q1) := Emplace(q0, 7, (a: int) => a);
    assert ok1 && Contents(q1) == [7];
    var (ok2, v, q2) := Dequeue(q1, 0);
    assert [7] == [v] + Contents(q2);
    x := v;
    q := Clear(q2);
  }
}
