/** `mpsc_bounded_queue<T, Capacity>`: the multi-producer/single-consumer
    ring of sequence-stamped slots. Producers take tickets from `tail_`; the
    slot for ticket t is `t & mask`, and a slot's stamp says whose turn it
    is: stamp t means free for the producer holding ticket t, stamp t + 1
    means full with that producer's item, ready for the consumer whose head
    is t. Indices and stamps are `uint32_t` and wrap modulo 2^32.

    Only the sequential meaning is modelled: each call runs to completion
    before the next begins, and a producer's wait for its slot becomes the
    precondition that the slot is already free. */
module MpscQueue {
  import opened Bits
  import opened Wrappers

  /** One slot: its sequence stamp, and the T object constructed in its
      storage, if any. */
  datatype Slot<T> = Slot(stamp: nat, item: Option<T>)

  datatype Mpsc<T> = Mpsc(cap: nat, slots: seq<Slot<T>>, head: nat, tail: nat)

  /** What every instantiation the source accepts satisfies: at least two
      slots (the static assertion) and 32-bit indices (Capacity at most
      UINT32_MAX selects `uint32_t`). Power-of-two capacity is NOT part of
      it: that constraint is commented out in the source. */
  predicate Shape<T>(q: Mpsc<T>)
  {
    2 <= q.cap < U32_MOD && |q.slots| == q.cap && q.head < U32_MOD && q.tail < U32_MOD
  }

  /** `ticket & mask`: the slot a ticket (or head value) uses. */
  function SlotOf<T>(q: Mpsc<T>, ticket: nat): (i: nat)
    requires Shape(q)
    ensures i < q.cap
  {
    BitAnd(ticket, q.cap - 1)
  }

  // ---------------------------------------------------------------------
  // Construction

  /** The constructor: slot i is stamped i and holds nothing; `head_` and
      `tail_` start at 0. With a power-of-two capacity this is the empty
      queue. */
  function Init<T>(cap: nat): (q: Mpsc<T>)
    requires 2 <= cap < U32_MOD
    ensures Shape(q) && q.cap == cap && q.head == 0 && q.tail == 0
    ensures forall i :: 0 <= i < cap ==> q.slots[i] == Slot(i, None)
    ensures IsPowerOfTwo(cap) ==> Valid(q) && Contents(q) == []
  {
    var q := Mpsc(cap, seq(cap, (i: int) requires 0 <= i < cap => Slot(i, None)), 0, 0);
    if IsPowerOfTwo(cap) then
      InitValid(q);
      q
    else
      q
  }

  lemma InitValid<T>(q: Mpsc<T>)
    requires Shape(q) && IsPowerOfTwo(q.cap) && q.head == 0 && q.tail == 0
    requires forall i :: 0 <= i < q.cap ==> q.slots[i] == Slot(i, None)
    ensures Valid(q) && Contents(q) == []
  {
    forall d | 0 <= d < q.cap
      ensures SlotOk(q, d)
    {
    }
  }

  // ---------------------------------------------------------------------
  // The invariant and the abstract contents (power-of-two capacity)

  /** Number of items pushed and not yet popped: `tail - head` in 32-bit
      arithmetic (lemma CountIsWrapped). */
  function Count<T>(q: Mpsc<T>): nat
    requires Shape(q)
  {
    if q.head <= q.tail then q.tail - q.head else q.tail + U32_MOD - q.head
  }

  lemma CountIsWrapped<T>(q: Mpsc<T>)
    requires Shape(q)
    ensures Count(q) == Wrap32(q.tail - q.head)
  {
    if q.head <= q.tail {
      WrapSmall(q.tail - q.head);
    } else {
      DivModUnique(q.tail - q.head, -1, Count(q), U32_MOD);
    }
  }

  /** The slot `d` places after the head's slot. */
  function Pos<T>(q: Mpsc<T>, d: nat): nat
    requires Shape(q) && d < q.cap
  {
    var h := q.head % q.cap;
    if h + d < q.cap then h + d else h + d - q.cap
  }

  /** The slot invariant, for the slot `d` places after the head: the slots
      of tickets in [head, tail) are full, stamped ticket + 1; every other
      slot is free, stamped with the next ticket that will use it. */
  ghost predicate SlotOk<T>(q: Mpsc<T>, d: nat)
    requires Shape(q) && d < q.cap
  {
    var s := q.slots[Pos(q, d)];
    if d < Count(q) then s.stamp == Add32(q.head, d + 1) && s.item.Some?
    else s.stamp == Add32(q.head, d) && s.item.None?
  }

  ghost predicate Valid<T>(q: Mpsc<T>)
  {
    && Shape(q) && IsPowerOfTwo(q.cap) && Count(q) <= q.cap
    && (forall d :: 0 <= d < q.cap ==> SlotOk(q, d))
  }

  /** The items held, oldest (ticket `head`) first. */
  ghost function Contents<T>(q: Mpsc<T>): (s: seq<T>)
    requires Valid(q)
    ensures |s| == Count(q)
    ensures forall i :: 0 <= i < |s| ==> q.slots[Pos(q, i)].item == Some(s[i])
  {
    seq(Count(q), i requires 0 <= i < Count(q) => Held(q, i))
  }

  /** The item of the ticket `i` places after the head. */
  ghost function Held<T>(q: Mpsc<T>, i: nat): (x: T)
    requires Valid(q) && i < Count(q)
    ensures q.slots[Pos(q, i)].item == Some(x)
  {
    assert SlotOk(q, i);
    q.slots[Pos(q, i)].item.value
  }

  /** With a power-of-two capacity, the masked slot of ticket `head + d` is
      the slot `d` places after the head's, across 32-bit wrap-around. */
  lemma TicketSlot<T>(q: Mpsc<T>, d: nat)
    requires Shape(q) && IsPowerOfTwo(q.cap) && d < q.cap
    ensures SlotOf(q, Add32(q.head, d)) == Pos(q, d)
  {
    Add32IsWrap(q.head, d);
    MaskIsMod(Add32(q.head, d), q.cap);
    WrapThenMod(q.head + d, q.cap);
    ModStep(q.head, d, q.cap);
  }

  // ---------------------------------------------------------------------
  // Producer side

  /** The slot of the next ticket is stamped with that ticket: the wait loop
      in `try_push` would exit at once. */
  predicate PushReady<T>(q: Mpsc<T>)
    requires Shape(q)
  {
    q.slots[SlotOf(q, q.tail)].stamp == q.tail
  }

  /** `try_push(v)`: takes ticket `tail_`, advances `tail_` by one, builds the
      item in the ticket's slot and stamps it ticket + 1. It never reports
      failure. Result: (success, queue). */
  function TryPush<T>(q: Mpsc<T>, v: T): (r: (bool, Mpsc<T>))
    requires Shape(q) && PushReady(q)
    ensures r.0
    ensures Shape(r.1) && r.1.cap == q.cap && r.1.head == q.head
    ensures r.1.tail == Wrap32(q.tail + 1)
    ensures r.1.slots == q.slots[SlotOf(q, q.tail) := Slot(r.1.tail, Some(v))]
  {
    var ticket := q.tail;
    var i := SlotOf(q, ticket);
    (true, q.(tail := Wrap32(ticket + 1), slots := q.slots[i := Slot(Wrap32(ticket + 1), Some(v))]))
  }

  /** On a valid queue a producer's slot is free exactly when the queue has
      room: a full queue makes `try_push` wait. */
  lemma PushReadyIffRoom<T>(q: Mpsc<T>)
    requires Valid(q)
    ensures PushReady(q) <==> Count(q) < q.cap
  {
    var n := Count(q);
    if n < q.cap {
      TicketSlot(q, n);
      assert SlotOk(q, n);
    } else {
      TicketSlot(q, 0);
      assert SlotOf(q, q.tail) == SlotOf(q, Add32(q.head, 0)) by {
        Add32IsWrap(q.head, q.cap);
        MaskIsMod(q.tail, q.cap);
        MaskIsMod(q.head, q.cap);
        WrapThenMod(q.head + q.cap, q.cap);
        assert q.head + q.cap == q.head + 1 * q.cap;
        ModOfMultipleShift(q.head, 1, q.cap);
      }
      assert SlotOk(q, 0);
    }
  }

  /** A push into a valid queue with room keeps the invariant and appends
      exactly the pushed item. */
  lemma TryPushAppends<T>(q: Mpsc<T>, v: T)
    requires Valid(q) && Count(q) < q.cap
    ensures PushReady(q)
    ensures var r := TryPush(q, v).1;
            Valid(r) && Count(r) == Count(q) + 1 && Contents(r) == Contents(q) + [v]
  {
    PushReadyIffRoom(q);
    PushValid(q, v);
    var n, r := Count(q), TryPush(q, v).1;
    assert Contents(r) == Contents(q) + [v] by {
      forall i | 0 <= i < n + 1
        ensures Contents(r)[i] == (Contents(q) + [v])[i]
      {
        assert Pos(r, i) == Pos(q, i);
        assert r.slots[Pos(r, i)].item == Some(Contents(r)[i]);
      }
    }
  }

  lemma PushValid<T>(q: Mpsc<T>, v: T)
    requires Valid(q) && Count(q) < q.cap && PushReady(q)
    ensures var r := TryPush(q, v).1;
            Valid(r) && Count(r) == Count(q) + 1 && r.slots[Pos(q, Count(q))].item == Some(v)
            && forall d :: 0 <= d < q.cap && d != Count(q) ==> r.slots[Pos(q, d)] == q.slots[Pos(q, d)]
  {
    var c, n := q.cap, Count(q);
    var r := TryPush(q, v).1;
    var p := Pos(q, n);
    TicketSlot(q, n);
    Add32IsWrap(q.tail, 1);
    assert q.tail == Add32(q.head, n);
    assert r.tail == Add32(q.head, n + 1);
    assert r.slots == q.slots[p := Slot(Add32(q.head, n + 1), Some(v))];
    assert Count(r) == n + 1;
    forall d | 0 <= d < c
      ensures SlotOk(r, d)
    {
      assert Pos(r, d) == Pos(q, d);
      if d != n {
        assert Pos(q, d) != p;
        assert SlotOk(q, d);
      }
    }
  }

  // ---------------------------------------------------------------------
  // Consumer side

  /** `try_pop(out)`: when the head's slot is stamped head + 1, moves its
      item into `out`, destroys it, restamps the slot head + Capacity (the
      ticket that next uses it) and advances `head_`; otherwise returns
      false and changes nothing. `out` is the caller's object before the
      call. Result: (success, out afterwards, queue). */
  function TryPop<T>(q: Mpsc<T>, out: T): (r: (bool, T, Mpsc<T>))
    requires Shape(q)
    ensures Shape(r.2) && r.2.cap == q.cap && r.2.tail == q.tail
    ensures r.0 <==> q.slots[SlotOf(q, q.head)].stamp == Wrap32(q.head + 1)
    ensures !r.0 ==> r.1 == out && r.2 == q
    ensures r.0 ==> (r.2.head == Wrap32(q.head + 1) &&
                     r.2.slots == q.slots[SlotOf(q, q.head) := Slot(Wrap32(q.head + q.cap), None)])
  {
    var head := q.head;
    var i := SlotOf(q, head);
    if q.slots[i].stamp != Wrap32(head + 1) then
      (false, out, q)
    else
      // A matching stamp without a constructed object happens on no valid
      // queue; `out` is then left as it was.
      var x := match q.slots[i].item case Some(y) => y case None => out;
      (true, x, q.(slots := q.slots[i := Slot(Wrap32(head + q.cap), None)], head := Wrap32(head + 1)))
  }

  /** On a valid queue `try_pop` succeeds exactly when an item is held; it
      delivers the oldest item, removes only it, and keeps the invariant. */
  lemma TryPopRemovesOldest<T>(q: Mpsc<T>, out: T)
    requires Valid(q)
    ensures var (ok, x, r) := TryPop(q, out);
            && (ok <==> Count(q) > 0)
            && Valid(r)
            && Contents(q) == (if ok then [x] else []) + Contents(r)
  {
    var c, n := q.cap, Count(q);
    TicketSlot(q, 0);
    assert SlotOk(q, 0);
    Add32IsWrap(q.head, 1);
    var (ok, x, r) := TryPop(q, out);
    if n == 0 {
      assert !ok;
      assert Contents(q) == [] + Contents(r);
    } else {
      PopValid(q, out);
      PopContents(q, out);
    }
  }

  /** The state after a successful pop, as the invariant sees it: head one
      on, one item fewer, every slot one place nearer the head's. */
  lemma PopShift<T>(q: Mpsc<T>, out: T)
    requires Valid(q) && Count(q) > 0
    ensures TryPop(q, out).0
    ensures var r := TryPop(q, out).2;
            && Count(r) == Count(q) - 1
            && r.head == Add32(q.head, 1)
            && (forall d :: 0 <= d < q.cap - 1 ==> Pos(r, d) == Pos(q, d + 1))
            && Pos(r, q.cap - 1) == Pos(q, 0)
  {
    var c := q.cap;
    TicketSlot(q, 0);
    assert SlotOk(q, 0);
    Add32IsWrap(q.head, 1);
    var r := TryPop(q, out).2;
    Add32IsWrap(q.head, 1);
    WrapThenMod(q.head + 1, c);
    ModStep(q.head, 1, c);
  }

  lemma PopValid<T>(q: Mpsc<T>, out: T)
    requires Valid(q) && Count(q) > 0
    ensures Valid(TryPop(q, out).2)
  {
    var c, n := q.cap, Count(q);
    PopShift(q, out);
    TicketSlot(q, 0);
    var r := TryPop(q, out).2;
    var p0 := Pos(q, 0);
    Add32IsWrap(q.head, c);
    assert r.slots == q.slots[p0 := Slot(Add32(q.head, c), None)];
    forall d | 0 <= d < c
      ensures SlotOk(r, d)
    {
      assert Add32(r.head, d) == Add32(q.head, d + 1);
      if d < c - 1 {
        assert Add32(r.head, d + 1) == Add32(q.head, d + 2);
        assert r.slots[Pos(r, d)] == q.slots[Pos(q, d + 1)];
        assert SlotOk(q, d + 1);
      } else {
        assert r.slots[Pos(r, d)] == Slot(Add32(q.head, c), None);
      }
    }
  }

  lemma PopContents<T>(q: Mpsc<T>, out: T)
    requires Valid(q) && Count(q) > 0
    ensures var (ok, x, r) := TryPop(q, out);
            Valid(r) && Contents(q) == [x] + Contents(r)
  {
    var n := Count(q);
    PopShift(q, out);
    PopValid(q, out);
    TicketSlot(q, 0);
    var (ok, x, r) := TryPop(q, out);
    assert Contents(q)[0] == x;
    assert Contents(r) == Contents(q)[1..] by {
      forall i | 0 <= i < n - 1
        ensures Contents(r)[i] == Contents(q)[1..][i]
      {
        assert r.slots[Pos(r, i)].item == Some(Contents(r)[i]);
        assert q.slots[Pos(q, i + 1)].item == Some(Contents(q)[i + 1]);
      }
    }
    assert Contents(q) == [x] + Contents(r);
  }

  // ---------------------------------------------------------------------
  // Destruction

  /** Every slot is some number of places after the head's slot. */
  lemma EverySlotHasOffset<T>(q: Mpsc<T>, i: nat)
    requires Shape(q) && i < q.cap
    ensures exists d :: 0 <= d < q.cap && Pos(q, d) == i
  {
    var h := q.head % q.cap;
    var d := if h <= i then i - h else i + q.cap - h;
    assert Pos(q, d) == i;
  }

  /** The destructor: pops into a default-constructed temporary until
      `try_pop` fails. Every held item is destroyed, oldest first, and no
      slot is left holding an object. */
  method Drain<T(0)>(q: Mpsc<T>) returns (r: Mpsc<T>, destroyed: seq<T>)
    requires Valid(q)
    ensures destroyed == Contents(q)
    ensures Valid(r) && Contents(r) == [] && r.head == r.tail == q.tail
    ensures forall i :: 0 <= i < r.cap ==> r.slots[i].item.None?
  {
    var tmp: T := *;
    r, destroyed := q, [];
    var ok := true;
    while ok
      invariant Valid(r) && r.cap == q.cap && r.tail == q.tail
      invariant Contents(q) == destroyed + Contents(r)
      invariant !ok ==> Count(r) == 0
      decreases Count(r) + (if ok then 1 else 0)
    {
      TryPopRemovesOldest(r, tmp);
      var res := TryPop(r, tmp);
      ok, tmp := res.0, res.1;
      if ok {
        assert Contents(r) == [tmp] + Contents(res.2);
        assert Contents(q) == (destroyed + [tmp]) + Contents(res.2);
        destroyed := destroyed + [tmp];
      }
      r := res.2;
    }
    assert destroyed == Contents(q);
    forall i | 0 <= i < r.cap
      ensures r.slots[i].item.None?
    {
      EverySlotHasOffset(r, i);
      var d :| 0 <= d < r.cap && Pos(r, d) == i;
      assert SlotOk(r, d);
    }
  }

  // ---------------------------------------------------------------------
  // A push whose construction throws

  /** `try_push(v)` when `T`'s constructor throws inside `construct`: the
      ticket has been taken and `tail_` advanced, but the slot is neither
      written nor restamped before the exception leaves. */
  function TryPushThrowing<T>(q: Mpsc<T>): (r: Mpsc<T>)
    requires Shape(q) && PushReady(q)
    ensures Shape(r) && r.cap == q.cap && r.head == q.head && r.slots == q.slots
    ensures r.tail == Wrap32(q.tail + 1)
  {
    q.(tail := Wrap32(q.tail + 1))
  }

  /** A throwing push into an empty queue wedges it. The head's slot keeps
      the stamp `head`, so `try_pop` fails and changes nothing, and fails
      again on every later call. The producer that draws ticket
      head + Capacity needs that same slot stamped with its ticket, which it
      never is, so that producer waits for ever. */
  lemma ThrowingPushWedges<T>(q: Mpsc<T>, out: T)
    requires Valid(q) && Count(q) == 0
    ensures PushReady(q)
    ensures var q1 := TryPushThrowing(q);
            && TryPop(q1, out) == (false, out, q1)
            && SlotOf(q1, Add32(q.head, q.cap)) == SlotOf(q1, q.head)
            && q1.slots[SlotOf(q1, q.head)].stamp != Add32(q.head, q.cap)
  {
    PushReadyIffRoom(q);
    var q1 := TryPushThrowing(q);
    var c := q.cap;
    assert Add32(q.head, 0) == q.head;
    TicketSlot(q, 0);
    assert SlotOk(q, 0);
    assert q.slots[SlotOf(q, q.head)].stamp == q.head;
    Add32IsWrap(q.head, 1);
    Add32IsWrap(q.head, c);
    MaskIsMod(Add32(q.head, c), c);
    MaskIsMod(q.head, c);
    WrapThenMod(q.head + c, c);
    ModOfMultipleShift(q.head, 1, c);
  }
}
