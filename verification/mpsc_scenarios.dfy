/** Whole-run properties of the MPSC ring: FIFO delivery over any sequence
    of calls, what the disabled power-of-two constraint costs, and the
    constructor with that constraint restored. */
module MpscScenarios {
  import opened Bits
  import opened MpscQueue
  import opened QueueOps
  import opened Wrappers

  /** The queue after a run, the items pushed and the items successful pops
      delivered, both in call order; `blocked` when the run stopped at a
      push whose slot was not free (in a single-threaded run that producer
      would wait for ever). */
  datatype Trace<T> = Trace(q: Mpsc<T>, accepted: seq<T>, delivered: seq<T>, blocked: bool)

  /** Replays the calls in order; `out` is the consumer's receiving object. */
  function Replay<T>(q: Mpsc<T>, ops: seq<Op<T>>, out: T): (r: Trace<T>)
    requires Valid(q)
    ensures Valid(r.q) && r.q.cap == q.cap
    decreases |ops|
  {
    if |ops| == 0 then Trace(q, [], [], false)
    else
      match ops[0]
      case Push(v) =>
        if !PushReady(q) then Trace(q, [], [], true)
        else
          PushReadyIffRoom(q);
          TryPushAppends(q, v);
          var t := Replay(TryPush(q, v).1, ops[1..], out);
          t.(accepted := [v] + t.accepted)
      case Pop =>
        TryPopRemovesOldest(q, out);
        var (ok, x, q1) := TryPop(q, out);
        var t := Replay(q1, ops[1..], x);
        t.(delivered := (if ok then [x] else []) + t.delivered)
  }

  /** Over any run, what the queue held plus what was pushed is what was
      delivered plus what the queue still holds, in order. */
  lemma {:induction false} ReplayFifo<T>(q: Mpsc<T>, ops: seq<Op<T>>, out: T)
    requires Valid(q)
    ensures var t := Replay(q, ops, out);
            Contents(q) + t.accepted == t.delivered + Contents(t.q)
    decreases |ops|
  {
    if |ops| == 0 {
      assert Contents(q) + [] == [] + Contents(q);
    } else {
      match ops[0]
      case Push(v) =>
        if !PushReady(q) {
          assert Contents(q) + [] == [] + Contents(q);
        } else {
          PushReadyIffRoom(q);
          TryPushAppends(q, v);
          var q1 := TryPush(q, v).1;
          var t := Replay(q1, ops[1..], out);
          ReplayFifo(q1, ops[1..], out);
          PushBookkeeping(Contents(q), [v], Contents(q1), t.accepted, t.delivered, Contents(t.q));
        }
      case Pop =>
        TryPopRemovesOldest(q, out);
        var (ok, x, q1) := TryPop(q, out);
        var t := Replay(q1, ops[1..], x);
        ReplayFifo(q1, ops[1..], x);
        PopBookkeeping(Contents(q), if ok then [x] else [], Contents(q1), t.accepted, t.delivered, Contents(t.q));
    }
  }

  /** Starting from a freshly constructed queue, whatever the interleaving
      of producers' and the consumer's calls, the consumer receives a prefix
      of exactly the pushed items, in ticket order, none duplicated or
      lost. */
  lemma FifoOverAnyRun<T>(cap: nat, ops: seq<Op<T>>, out: T)
    requires 2 <= cap < U32_MOD && IsPowerOfTwo(cap)
    ensures var t := Replay(Create(cap), ops, out);
            t.delivered <= t.accepted && t.accepted == t.delivered + Contents(t.q)
  {
    var q := Create<T>(cap);
    ReplayFifo(q, ops, out);
    var t := Replay(q, ops, out);
    assert [] + t.accepted == t.accepted;
  }

  // ---------------------------------------------------------------------
  // The disabled PowerOfTwo constraint

  /** As written, capacity 3 is accepted. Its mask is 2, so tickets 0 and 1
      share slot 0. Slot 0's stamp after the first push is 1, which is
      ticket 1's turn, so the second push overwrites the first item in place.
      `try_pop` then fails although two items were pushed, and the first
      item is gone. */
  lemma CapacityThreeLosesItem()
    ensures !IsPowerOfTwo(3)
    ensures var q0 := Init<int>(3);
            PushReady(q0) &&
            var q1 := TryPush(q0, 10).1;
            PushReady(q1) &&
            var q2 := TryPush(q1, 20).1;
            && !TryPop(q2, 0).0
            && (forall i :: 0 <= i < 3 ==> q2.slots[i].item != Some(10))
  {
    var q0 := Init<int>(3);
    assert SlotOf(q0, 0) == 0;
    WrapSmall(1);
    var q1 := TryPush(q0, 10).1;
    assert SlotOf(q1, 1) == 0;
    WrapSmall(2);
    var q2 := TryPush(q1, 20).1;
    assert q2.slots[0] == Slot(2, Some(20));
  }

  /** `mpsc_bounded_queue` with its `PowerOfTwo` constraint in force: only
      power-of-two capacities construct, and the result is the empty valid
      queue. */
  function Create<T>(cap: nat): (q: Mpsc<T>)
    requires 2 <= cap < U32_MOD && IsPowerOfTwo(cap)
    ensures Valid(q) && Contents(q) == [] && q.cap == cap && Count(q) == 0
  {
    Init(cap)
  }

  /** What the constraint buys: under any head value, the next Capacity
      tickets (wrapping at 2^32) use Capacity different slots, so no push can
      land on a slot a pending item still occupies. */
  lemma ConsecutiveTicketsUseDistinctSlots<T>(q: Mpsc<T>, d1: nat, d2: nat)
    requires Shape(q) && IsPowerOfTwo(q.cap)
    requires d1 < q.cap && d2 < q.cap && d1 != d2
    ensures SlotOf(q, Add32(q.head, d1)) != SlotOf(q, Add32(q.head, d2))
  {
    TicketSlot(q, d1);
    TicketSlot(q, d2);
  }

  /** One push into a queue with room, seen only through its contract. */
  method PushOne(q: Mpsc<int>, v: int) returns (r: Mpsc<int>)
    requires Valid(q) && Count(q) < q.cap
    ensures PushReady(q) && r == TryPush(q, v).1
    ensures Valid(r) && r.cap == q.cap && Contents(r) == Contents(q) + [v]
  {
    TryPushAppends(q, v);
    r := TryPush(q, v).1;
  }

  /** One pop, seen only through its contract. */
  method PopOne(q: Mpsc<int>, out: int) returns (ok: bool, x: int, r: Mpsc<int>)
    requires Valid(q)
    ensures TryPop(q, out) == (ok, x, r)
    ensures (ok <==> Count(q) > 0) && Valid(r) && r.cap == q.cap
    ensures Contents(q) == (if ok then [x] else []) + Contents(r)
  {
    TryPopRemovesOldest(q, out);
    ok, x, r := TryPop(q, out).0, TryPop(q, out).1, TryPop(q, out).2;
  }

  /** Two producers fill a capacity-2 queue, after which a third would
      wait; the consumer then receives the first item, and the waiting
      producer's slot is free. */
  method FullQueueMakesProducerWait(q0: Mpsc<int>) returns (full: Mpsc<int>, x: int, after: Mpsc<int>)
    requires Valid(q0) && q0.cap == 2 && Contents(q0) == []
    ensures Valid(full) && Contents(full) == [1, 2] && !PushReady(full)
    ensures TryPop(full, 0) == (true, x, after)
    ensures x == 1 && Valid(after) && Contents(after) == [2] && PushReady(after)
  {
    var q1 := PushOne(q0, 1);
    assert Contents(q1) == [1];
    full := PushOne(q1, 2);
    PushReadyIffRoom(full);
    var ok;
    ok, x, after := PopOne(full, 0);
    assert Contents(after) == Contents(full)[1..];
    PushReadyIffRoom(after);
  }
}
