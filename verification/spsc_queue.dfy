/** `spsc_bounded_queue<T, Capacity>`: the single-producer/single-consumer
    ring buffer. Capacity is a power of two and one slot is always left
    empty, so at most Capacity - 1 items are held. Each side decides with a
    cached copy of the other side's index (`head_cache_`, `tail_cache_`)
    and reloads it only on an apparent collision.

    Only the sequential meaning is modelled: each operation is a function
    from the queue state before to the state after. */
module SpscQueue {
  import opened Bits
  import opened Wrappers

  /** The ring state. `buf[i]` is `Some(x)` exactly when slot i holds a
      constructed T object (placement-new'd by the producer, not yet
      destroyed by the consumer). */
  datatype Spsc<T> = Spsc(
    cap: nat,
    buf: seq<Option<T>>,
    head: nat,
    tail: nat,
    headCache: nat,
    tailCache: nat)

  // ---------------------------------------------------------------------
  // Index arithmetic on [0, c)

  /** The slot `d` places after slot `h`, going round the ring. */
  function Ring(c: nat, h: nat, d: nat): nat
    requires h < c && d < c
  {
    if h + d < c then h + d else h + d - c
  }

  /** How many places `b` lies after `a` going round the ring; this is
      `(b + c - a) & (c - 1)`, as lemma ApproxSizeIsCount relates. */
  function Dist(c: nat, a: nat, b: nat): nat
    requires a < c && b < c
  {
    if a <= b then b - a else b + c - a
  }

  /** `(i + 1) & Mask` for an index i in [0, c). */
  function Advance(c: nat, i: nat): nat
    requires c >= 1
  {
    BitAnd(i + 1, c - 1)
  }

  lemma AdvanceWraps(c: nat, i: nat)
    requires IsPowerOfTwo(c) && i < c
    ensures Advance(c, i) == if i + 1 == c then 0 else i + 1
  {
    MaskIsMod(i + 1, c);
    if i + 1 == c {
      DivModUnique(i + 1, 1, 0, c);
    } else {
      DivModUnique(i + 1, 0, i + 1, c);
    }
  }

  // ---------------------------------------------------------------------
  // The class invariant and the abstract contents

  predicate Shape<T>(q: Spsc<T>)
  {
    && q.cap >= 2 && IsPowerOfTwo(q.cap) && |q.buf| == q.cap
    && q.head < q.cap && q.tail < q.cap && q.headCache < q.cap && q.tailCache < q.cap
  }

  /** Number of items held. */
  function Count<T>(q: Spsc<T>): nat
    requires Shape(q)
  {
    Dist(q.cap, q.head, q.tail)
  }

  /** The slot `d` places after the head. */
  function At<T>(q: Spsc<T>, d: nat): Option<T>
    requires Shape(q) && d < q.cap
  {
    q.buf[Ring(q.cap, q.head, d)]
  }

  /** The invariant: indices in range; going round from `head_cache_` one
      meets `head` and then `tail`; going round from `head` one meets
      `tail_cache_` and then `tail`; exactly the slots in [head, tail) hold
      live objects. */
  ghost predicate Valid<T>(q: Spsc<T>)
  {
    && Shape(q)
    && Dist(q.cap, q.headCache, q.head) + Dist(q.cap, q.head, q.tail) == Dist(q.cap, q.headCache, q.tail)
    && Dist(q.cap, q.head, q.tailCache) + Dist(q.cap, q.tailCache, q.tail) == Dist(q.cap, q.head, q.tail)
    && (forall d :: 0 <= d < q.cap ==> (At(q, d).Some? <==> d < Count(q)))
  }

  /** The items held, oldest first. */
  ghost function Contents<T>(q: Spsc<T>): (s: seq<T>)
    requires Valid(q)
    ensures |s| == Count(q)
    ensures forall i :: 0 <= i < |s| ==> At(q, i) == Some(s[i])
  {
    seq(Count(q), i requires 0 <= i < Count(q) => At(q, i).value)
  }

  // ---------------------------------------------------------------------
  // Stale-cache soundness

  /** If the producer's next index differs from its (possibly stale) cached
      head, the ring really has room: the cached head is never ahead of the
      real one, so the shortcut cannot admit an enqueue into a full ring, and
      the slot about to be written holds no live object. */
  lemma StaleHeadCacheSound<T>(q: Spsc<T>)
    requires Valid(q)
    ensures Advance(q.cap, q.tail) != q.headCache ==> Count(q) < q.cap - 1
    ensures Count(q) < q.cap - 1 ==> q.buf[q.tail].None?
  {
    AdvanceWraps(q.cap, q.tail);
    if Count(q) < q.cap - 1 {
      assert Ring(q.cap, q.head, Count(q)) == q.tail;
      assert !At(q, Count(q)).Some?;
    }
  }

  /** If the consumer's head differs from its (possibly stale) cached tail,
      the ring really is non-empty and the head slot holds a live object:
      the shortcut cannot admit a dequeue from an empty ring. */
  lemma StaleTailCacheSound<T>(q: Spsc<T>)
    requires Valid(q)
    ensures q.head != q.tailCache ==> Count(q) > 0
    ensures Count(q) > 0 ==> q.buf[q.head].Some?
  {
    if Count(q) > 0 {
      assert At(q, 0).Some?;
    }
  }

  // ---------------------------------------------------------------------
  // Construction

  /** `spsc_bounded_queue()`: the static assertions demand Capacity >= 2 and a
      power of two; all indices start at zero and no slot is constructed. */
  function Init<T>(cap: nat): (q: Spsc<T>)
    requires cap >= 2 && IsPowerOfTwo(cap)
    ensures q.cap == cap && |q.buf| == cap
    ensures Valid(q) && Contents(q) == []
    ensures forall i :: 0 <= i < cap ==> q.buf[i].None?
  {
    Spsc(cap, seq(cap, _ => None), 0, 0, 0, 0)
  }

  // ---------------------------------------------------------------------
  // Producer side

  /** What every enqueue variant promises: it succeeds exactly when fewer than
      Capacity - 1 items are held; on success it constructs one object, in the
      free tail slot, and appends the item; on failure only the head cache is
      refreshed. The consumer's fields are never touched. */
  ghost predicate EnqueueSpec<T>(q: Spsc<T>, v: T, ok: bool, r: Spsc<T>)
    requires Valid(q)
  {
    && Valid(r)
    && r.cap == q.cap && r.head == q.head && r.tailCache == q.tailCache
    && (ok <==> Count(q) < q.cap - 1)
    && Contents(r) == Contents(q) + (if ok then [v] else [])
    && (ok ==> q.buf[q.tail].None? && r.buf == q.buf[q.tail := Some(v)])
    && (!ok ==> r == q.(headCache := q.head))
  }

  lemma PushStep<T>(q: Spsc<T>, v: T, hc: nat)
    requires Valid(q) && hc < q.cap && Count(q) < q.cap - 1
    requires hc == q.head || (hc == q.headCache && Advance(q.cap, q.tail) != q.headCache)
    ensures var next := Advance(q.cap, q.tail);
            EnqueueSpec(q, v, true, q.(headCache := hc, buf := q.buf[q.tail := Some(v)], tail := next))
  {
    PushShift(q, v, hc);
    var r := q.(headCache := hc, buf := q.buf[q.tail := Some(v)], tail := Advance(q.cap, q.tail));
    var n := Count(q);
    assert Contents(r) == Contents(q) + [v] by {
      forall i | 0 <= i < n + 1
        ensures Contents(r)[i] == (Contents(q) + [v])[i]
      {
        assert At(r, i) == Some(Contents(r)[i]);
      }
    }
  }

  /** The ring after an accepted enqueue, as the invariant sees it: one more
      item, in the slot just past the old ones. */
  lemma PushShift<T>(q: Spsc<T>, v: T, hc: nat)
    requires Valid(q) && hc < q.cap && Count(q) < q.cap - 1
    requires hc == q.head || (hc == q.headCache && Advance(q.cap, q.tail) != q.headCache)
    ensures var r := q.(headCache := hc, buf := q.buf[q.tail := Some(v)], tail := Advance(q.cap, q.tail));
            && Valid(r) && Count(r) == Count(q) + 1 && q.buf[q.tail].None?
            && forall d :: 0 <= d < q.cap ==> At(r, d) == if d == Count(q) then Some(v) else At(q, d)
  {
    var c := q.cap;
    var next := Advance(c, q.tail);
    AdvanceWraps(c, q.tail);
    StaleHeadCacheSound(q);
    var r := q.(headCache := hc, buf := q.buf[q.tail := Some(v)], tail := next);
    var n := Count(q);
    assert Count(r) == n + 1;
    assert Ring(c, q.head, n) == q.tail;
    forall d | 0 <= d < c
      ensures At(r, d) == if d == n then Some(v) else At(q, d)
    {
    }
  }

  /** The caches take no part in what the ring holds. */
  lemma ContentsIgnoresCaches<T>(q: Spsc<T>, r: Spsc<T>)
    requires Valid(q) && Valid(r)
    requires r.cap == q.cap && r.buf == q.buf && r.head == q.head && r.tail == q.tail
    ensures Contents(r) == Contents(q)
  {
    assert forall i :: 0 <= i < Count(q) ==> At(r, i) == At(q, i);
  }

  /** `emplace_impl(v)`: the shared body of both `enqueue` overloads. Tests
      fullness against `head_cache_` first and reloads it from `head_` only
      when the next tail index collides with it. Result: (success, queue). */
  function EmplaceImpl<T>(q: Spsc<T>, v: T): (r: (bool, Spsc<T>))
    requires Valid(q)
    ensures EnqueueSpec(q, v, r.0, r.1)
  {
    var tail := q.tail;
    var next := Advance(q.cap, tail);
    StaleHeadCacheSound(q);
    AdvanceWraps(q.cap, tail);
    if next == q.headCache then
      var hc := q.head;
      if next == hc then
        ContentsIgnoresCaches(q, q.(headCache := hc));
        (false, q.(headCache := hc))
      else
        PushStep(q, v, hc);
        (true, q.(headCache := hc, buf := q.buf[tail := Some(v)], tail := next))
    else
      PushStep(q, v, q.headCache);
      (true, q.(buf := q.buf[tail := Some(v)], tail := next))
  }

  /** `enqueue(const T&)` and `enqueue(T&&)`: both forward to emplace_impl. */
  function Enqueue<T>(q: Spsc<T>, item: T): (r: (bool, Spsc<T>))
    requires Valid(q)
    ensures EnqueueSpec(q, item, r.0, r.1)
  {
    EmplaceImpl(q, item)
  }

  /** `emplace(args...)`: constructs `T(args...)` in the tail slot; the same
      algorithm as emplace_impl. `construct` is T's constructor. */
  function Emplace<A, T>(q: Spsc<T>, args: A, construct: A -> T): (r: (bool, Spsc<T>))
    requires Valid(q)
    ensures EnqueueSpec(q, construct(args), r.0, r.1)
  {
    EmplaceImpl(q, construct(args))
  }

  // ---------------------------------------------------------------------
  // Consumer side

  /** What dequeue promises: it succeeds exactly when an item is held; on
      success it moves the oldest item into `out`, destroys that one slot
      object and removes only it; on failure `out` and the ring are unchanged
      except for the refreshed tail cache. The producer's fields are never
      touched. */
  ghost predicate DequeueSpec<T>(q: Spsc<T>, out: T, ok: bool, item: T, r: Spsc<T>)
    requires Valid(q)
  {
    && Valid(r)
    && r.cap == q.cap && r.tail == q.tail && r.headCache == q.headCache
    && (ok <==> Count(q) > 0)
    && Contents(q) == (if ok then [item] else []) + Contents(r)
    && (ok ==> q.buf[q.head] == Some(item) && r.buf == q.buf[q.head := None])
    && (!ok ==> item == out && r == q.(tailCache := q.tail))
  }

  lemma PopStep<T>(q: Spsc<T>, out: T, tc: nat)
    requires Valid(q) && tc < q.cap && Count(q) > 0
    requires (tc == q.tail || tc == q.tailCache) && q.head != tc
    ensures q.buf[q.head].Some?
    ensures var next := Advance(q.cap, q.head);
            DequeueSpec(q, out, true, q.buf[q.head].value,
                        q.(tailCache := tc, buf := q.buf[q.head := None], head := next))
  {
    PopShift(q, tc);
    var r := q.(tailCache := tc, buf := q.buf[q.head := None], head := Advance(q.cap, q.head));
    var n := Count(q);
    assert Contents(q)[0] == q.buf[q.head].value by {
      assert At(q, 0) == Some(Contents(q)[0]);
    }
    assert Contents(r) == Contents(q)[1..] by {
      forall i | 0 <= i < n - 1
        ensures Contents(r)[i] == Contents(q)[1..][i]
      {
        assert At(r, i) == Some(Contents(r)[i]);
        assert At(q, i + 1) == Some(Contents(q)[i + 1]);
      }
    }
    assert Contents(q) == [q.buf[q.head].value] + Contents(r);
  }

  /** The ring after a successful dequeue, as the invariant sees it: one
      item fewer, every remaining one a place nearer the head. */
  lemma PopShift<T>(q: Spsc<T>, tc: nat)
    requires Valid(q) && tc < q.cap && Count(q) > 0
    requires (tc == q.tail || tc == q.tailCache) && q.head != tc
    ensures q.buf[q.head].Some?
    ensures var r := q.(tailCache := tc, buf := q.buf[q.head := None], head := Advance(q.cap, q.head));
            && Valid(r) && Count(r) == Count(q) - 1
            && forall d :: 0 <= d < q.cap ==> At(r, d) == if d == q.cap - 1 then None else At(q, d + 1)
  {
    var c := q.cap;
    StaleTailCacheSound(q);
    var next := Advance(c, q.head);
    AdvanceWraps(c, q.head);
    var r := q.(tailCache := tc, buf := q.buf[q.head := None], head := next);
    var n := Count(q);
    assert Count(r) == n - 1;
    forall d | 0 <= d < c
      ensures At(r, d) == if d == c - 1 then None else At(q, d + 1)
    {
    }
  }

  /** `dequeue(T& out)`: tests emptiness against `tail_cache_` first and
      reloads it from `tail_` only when the head collides with it. `out` is
      the caller's object before the call. Result: (success, out afterwards,
      queue). */
  function Dequeue<T>(q: Spsc<T>, out: T): (r: (bool, T, Spsc<T>))
    requires Valid(q)
    ensures DequeueSpec(q, out, r.0, r.1, r.2)
  {
    var head := q.head;
    StaleTailCacheSound(q);
    if head == q.tailCache then
      var tc := q.tail;
      if head == tc then
        ContentsIgnoresCaches(q, q.(tailCache := tc));
        (false, out, q.(tailCache := tc))
      else
        PopStep(q, out, tc);
        (true, q.buf[head].value, q.(tailCache := tc, buf := q.buf[head := None], head := Advance(q.cap, head)))
    else
      PopStep(q, out, q.tailCache);
      (true, q.buf[head].value, q.(buf := q.buf[head := None], head := Advance(q.cap, head)))
  }

  // ---------------------------------------------------------------------
  // Draining and size

  /** Every slot index is some offset from the head. */
  lemma EverySlotHasOffset<T>(q: Spsc<T>, i: nat)
    requires Shape(q) && i < q.cap
    ensures Ring(q.cap, q.head, Dist(q.cap, q.head, i)) == i
  {
  }

  /** `clear()` (also the destructor's body): dequeues into a temporary until
      dequeue fails. Afterwards the ring is empty, `head == tail`, and no slot
      holds a live object. */
  method Clear<T(0)>(q: Spsc<T>) returns (r: Spsc<T>)
    requires Valid(q)
    ensures Valid(r) && Contents(r) == [] && r.head == r.tail
    ensures r.cap == q.cap && r.tail == q.tail
    ensures forall i :: 0 <= i < r.cap ==> r.buf[i].None?
  {
    var tmp: T := *;
    r := q;
    var ok := true;
    while ok
      invariant Valid(r) && r.cap == q.cap && r.tail == q.tail
      invariant !ok ==> Count(r) == 0
      decreases Count(r) + (if ok then 1 else 0)
    {
      var res := Dequeue(r, tmp);
      ok, tmp, r := res.0, res.1, res.2;
    }
    forall i | 0 <= i < r.cap
      ensures r.buf[i].None?
    {
      EverySlotHasOffset(r, i);
      assert !At(r, Dist(r.cap, r.head, i)).Some?;
    }
  }

  /** `approx_size()`: `(tail + Capacity - head) & Mask`. */
  function ApproxSize<T>(q: Spsc<T>): (n: nat)
    requires Shape(q)
    ensures n < q.cap
  {
    BitAnd(q.tail + q.cap - q.head, q.cap - 1)
  }

  /** Without concurrent updates the approximate size is exact: it is the
      number of held items. */
  lemma ApproxSizeIsCount<T>(q: Spsc<T>)
    requires Valid(q)
    ensures ApproxSize(q) == |Contents(q)|
  {
    var c := q.cap;
    MaskIsMod(q.tail + c - q.head, c);
    if q.head <= q.tail {
      DivModUnique(q.tail + c - q.head, 1, q.tail - q.head, c);
    } else {
      DivModUnique(q.tail + c - q.head, 0, q.tail + c - q.head, c);
    }
  }
}
