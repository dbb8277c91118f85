# steroidslog core in Dafny

A Dafny model of the data structures underneath the steroidslog
low-latency logger, with proofs of their properties:

- **`spsc_bounded_queue`** is the single-producer/single-consumer ring.
  - Its capacity is a power of two, and one slot always stays empty.
  - Each side keeps a cached copy of the other side's index.
  - Modelled in `spsc_queue.dfy`. Whole-run FIFO and the single-threaded
    unit scenarios are in `spsc_scenarios.dfy`.
- **`mpsc_bounded_queue`** is the multi-producer/single-consumer ring of
  sequence-stamped slots.
  - Indices and stamps are `uint32_t` and wrap at 2^32.
  - Modelled in `mpsc_queue.dfy`. Whole-run FIFO and the capacity finding
    are in `mpsc_scenarios.dfy`.
- **`fnv1a_32`** is the 32-bit FNV-1a hash of a C string, evaluated at
  compile time; the tests use it to make `uint32_t` ids.
- **`static_map::get`** is the process-wide find-or-insert map.
  `pseudomap` is its instantiation from `uint32_t` to `std::string_view`.
  Both are in `pseudomap.dfy`.
- **`SmallFunction<BufSize>`** is the fixed-buffer type-erased callable, in
  `small_function.dfy`.
- **`LogLevel` and `to_string`**, in `log_levels.dfy`.

Shared pieces:

- `bits.dfy` holds the bitwise AND used for masking, powers of two and
  32-bit wrap-around.
- `queue_ops.dfy` holds the calls a queue run is made of.
- `wrappers.dfy` holds `Option`.

## How the model works

- **Queues as pure functions.** Each queue is an immutable datatype, and
  every operation is a pure function from the state before to the result
  and the state after.
  - A slot holding a constructed `T` object is `Some(x)`.
  - A slot with raw storage is `None`.
  - So "no object left alive" is a statement about the buffer.
  - What a queue holds is the ghost function `Contents`, oldest first. The
    invariant is the ghost predicate `Valid`.
- **Concurrency.** Calls are modelled one at a time. Memory orderings are
  not modelled.
  - In `try_push`, the producer's wait for its slot becomes the
    precondition `PushReady`, meaning the slot is already free.
  - `PushReadyIffRoom` shows that this holds exactly when the queue is not
    full.
- **The callable itself.** A `SmallFunction` is modelled by its ownership
  state: empty, or holding one callable object constructed in its buffer.
  - Every buffer object gets an identity in a `Ledger` that records
    constructions and destructor calls.
  - Running a callable is a caller-supplied function from the callable's
    state and a world state to both afterwards, so a stateful callable
    changes the object in its buffer.
  - `IsSet` is `operator bool`.
- **Text.** A format literal is the sequence of its bytes, including the
  terminating NUL.

Where the code and its own tests disagree, the model follows the code.
tests/test_pseudomap.cpp:50 says "Second write is ignored by design
(write-once per id)". The code's `get` returns a mutable reference, so a
later assignment overwrites. The write-once registry is modelled beside it;
see Findings.

## Model

| member | source | states |
|---|---|---|
| `LogLevels.ToString` | lib/steroidslog/log_levels.h:12-24 | each of Debug, Info, Warning and Error prints as its upper-case name and only that level does; every other byte value of the enumeration, Unknown included, prints as "UNKNOWN" |
| `LogLevels.Parse` | lib/steroidslog/log_levels.h:12-24 | reading back a name succeeds only for a name `to_string` prints, and yields a level that prints as that name |
| `LogLevels.ParseToString` | lib/steroidslog/log_levels.h:10-24 | printing a level and reading it back recovers a named level; every unnamed value comes back as Unknown |
| `LogLevels.Prefix` | lib/steroidslog/steroidslog.h:49 | the line prefix is `[`, then the level's `to_string` name, then `] ` |
| `LogLevels.PrefixesDistinguishLevels` | lib/steroidslog/steroidslog.h:49 | two levels produce the same `[NAME] ` line prefix exactly when they are the same level or both unnamed |
| `Pseudomap.Fnv1a32` | lib/misc/pseudomap.h:76-80 | the recursive `fnv1a_32` equals the FNV-1a fold (xor the byte, multiply by 16777619 mod 2^32) over exactly the bytes before the first NUL |
| `Pseudomap.Fnv1a32Compose` | lib/misc/pseudomap.h:76-80 | hashing a NUL-free prefix and then the rest, seeded with the prefix's hash, equals hashing the whole |
| `Pseudomap.StopsAtNul` | lib/misc/pseudomap.h:77-78 | nothing after the terminating NUL affects the hash |
| `Pseudomap.EmptyHashIsOffsetBasis` | lib/misc/pseudomap.h:76-78 | the empty string hashes to the offset basis 2166136261 |
| `Pseudomap.KnownVectorAbc` | tests/test_pseudomap.cpp:17-26 | "abc" hashes to 0x1A47E90B |
| `Pseudomap.Get` | lib/misc/pseudomap.h:26-36 | a present key returns its stored value and leaves the map as it was; an absent key is inserted with the newly constructed value, which is returned; no other entry changes |
| `Pseudomap.AssignThroughGet` | lib/misc/pseudomap.h:26-36 | assigning through the returned reference stores the new value under the key (inserting it if absent) and changes no other entry |
| `Pseudomap.PseudomapGet` | tests/test_pseudomap.cpp:57-64 | reading an id never written yields the empty text and inserts it; reading a present id returns its text and changes nothing |
| `Pseudomap.PseudomapAssign` | tests/test_pseudomap.cpp:28-37 | `get(id) = text` stores text under id, keeps every other id's text, and adds only id |
| `Pseudomap.PutThenGet` | tests/test_pseudomap.cpp:28-37 | after `get(id) = text`, reading id yields text and leaves the map unchanged |
| `Pseudomap.ReassignOverwrites` | tests/test_pseudomap.cpp:39-54 | as written, a second assignment to the same id replaces the first: the read yields "twice" |
| `Pseudomap.Register` | tests/test_pseudomap.cpp:44-53 | first writer wins: registering a present id leaves the map unchanged; an absent id gets the text |
| `Pseudomap.Lookup` | tests/test_pseudomap.cpp:57-64 | an absent id reads as the empty text, a present one as its text |
| `Pseudomap.PseudomapTestsInOneProcess` | tests/test_pseudomap.cpp:28-64 | the three tests run in file order in one process, with the ids `fnv1a_32` gives "hello", "key" and "missing": "hello" reads back "world", "key" reads "once" and then "twice", and "missing" reads as empty because its id differs from the other two |
| `Pseudomap.RegisterWriteOnce` | tests/test_pseudomap.cpp:39-54 | after registering "once" for a fresh id, a later registration leaves "once" readable |
| `SmallFunctions.Default` | lib/misc/small_function.h:19 | a default-constructed SmallFunction is empty, so `operator bool` is false |
| `SmallFunctions.FromCallable` | lib/misc/small_function.h:21-38 | constructing from a callable that fits the buffer yields a set SmallFunction holding that callable as one newly constructed object |
| `SmallFunctions.CopyConstruct` | lib/misc/small_function.h:40-47 | a copy is set exactly when the source is, holds the same callable as a new object, and destroys nothing |
| `SmallFunctions.MoveConstruct` | lib/misc/small_function.h:48-59 | the target takes the source's callable as a new object, the source's object is destroyed and the source ends empty; moving from an empty one changes nothing |
| `SmallFunctions.CopyAssign` | lib/misc/small_function.h:61-78 | when the copy does not throw: self-assignment changes nothing; otherwise the target's old object is destroyed and the target holds a copy of the source's callable as a new object, or is empty when the source is |
| `SmallFunctions.CopyAssignAsWritten` | lib/misc/small_function.h:61-78 | when the callable's copy constructor throws, the target's old object has already been destroyed, and the target still holds the pointers to it |
| `SmallFunctions.ThrowingCopyAssignDestroysTwice` | lib/misc/small_function.h:61-78 | a throwing copy over a set target, then the target's destructor, destroys the target's old object twice |
| `SmallFunctions.DestroyAsWritten` | lib/misc/small_function.h:102-106 | the destructor calls `destroy_` whenever the pointer is set, whether or not the object is still alive |
| `SmallFunctions.CopyAssignOrThrow` | lib/misc/small_function.h:61-78 | copy assignment with the pointers cleared after the old object is destroyed: a throwing copy leaves the target empty, and ownership stays consistent |
| `SmallFunctions.ThrowingCopyAssignDestroysOnce` | lib/misc/small_function.h:61-78 | with the pointers cleared, a throwing copy followed by the destructor destroys the old object exactly once |
| `SmallFunctions.MoveAssign` | lib/misc/small_function.h:79-100 | self-assignment changes nothing; otherwise the target's old object and then the source's object are destroyed, the target takes the callable and the source ends empty |
| `SmallFunctions.Destroy` | lib/misc/small_function.h:102-106 | the destructor destroys the held object exactly when one is held: the log gains exactly that object at its end, earlier entries stay as they were, and no object is constructed |
| `SmallFunctions.IsSet` | lib/misc/small_function.h:114 | `operator bool` is true exactly when the SmallFunction owns a buffer object |
| `SmallFunctions.Invoke` | lib/misc/small_function.h:26-29 | calling runs the held callable object in place: its effect on the world and its own new state, kept in the same buffer object; calling an empty SmallFunction does nothing |
| `SmallFunctions.CopyBehavesAsOriginal` | lib/misc/small_function.h:40-47 | a copy, when called, has the same effect as the original and ends in the same state |
| `SmallFunctions.MoveTransfersBehaviour` | lib/misc/small_function.h:48-59 | the moved-to SmallFunction behaves as the source did; the moved-from one does nothing when called |
| `SmallFunctions.CopiesKeepTheirOwnState` | lib/misc/small_function.h:26-47 | a copy holds its own copy of a stateful callable: with a counting callable, call a, copy a into b, call a, call b, and the output is 1, 2, 2 |
| `SmallFunctions.Called` | lib/misc/small_function.h:108-112 | calling a variable's callable changes no variable's ownership and no object's lifetime |
| `SmallFunctions.Run` | lib/misc/small_function.h:102-106 | after any program of declarations, copies, moves, assignments (copies that throw included, with the pointers cleared) and calls, and leaving every scope, the ownership invariant holds and no variable remains |
| `SmallFunctions.EveryCallableDestroyedOnce` | lib/misc/small_function.h:40-106 | over any such program, every callable object ever constructed is destroyed exactly once and none is left alive |
| `Bits.MaskIsMod` | lib/misc/spsc_bounded_queue.h:46 | for a power-of-two capacity, `x & (Capacity - 1)` is `x mod Capacity` |
| `Bits.PowerOfTwoTest` | lib/misc/spsc_bounded_queue.h:22-23 | the test `N & (N - 1) == 0`, for N > 0, holds exactly for powers of two |
| `Bits.WrapThenMod` | lib/misc/mpsc_bounded_queue.h:30-32 | reducing a 32-bit index modulo 2^32 does not change which slot a power-of-two mask selects |
| `SpscQueue.AdvanceWraps` | lib/misc/spsc_bounded_queue.h:94 | `(i + 1) & Mask` is the next index, wrapping to 0 after the last slot |
| `SpscQueue.StaleHeadCacheSound` | lib/misc/spsc_bounded_queue.h:96-101 | if the next tail differs from the cached head, the ring really has room; room means the tail slot holds no object |
| `SpscQueue.StaleTailCacheSound` | lib/misc/spsc_bounded_queue.h:63-68 | if the head differs from the cached tail, the ring really holds an item; then the head slot holds one |
| `SpscQueue.Init` | lib/misc/spsc_bounded_queue.h:29-30 | a new ring is valid, empty, and holds no slot object |
| `SpscQueue.PushStep` | lib/misc/spsc_bounded_queue.h:103-106 | constructing the item in the tail slot and advancing the tail appends exactly that item and keeps the invariant |
| `SpscQueue.EmplaceImpl` | lib/misc/spsc_bounded_queue.h:92-107 | enqueue succeeds exactly when fewer than Capacity - 1 items are held; on success it appends the item in the free tail slot; on failure only the head cache is refreshed; the consumer's fields are untouched |
| `SpscQueue.Enqueue` | lib/misc/spsc_bounded_queue.h:39-41 | both enqueue overloads behave as emplace_impl |
| `SpscQueue.Emplace` | lib/misc/spsc_bounded_queue.h:44-59 | emplace appends `T(args...)` under the same full test |
| `SpscQueue.PopStep` | lib/misc/spsc_bounded_queue.h:70-75 | moving out the head slot's object, destroying it and advancing the head removes exactly the oldest item and keeps the invariant |
| `SpscQueue.Dequeue` | lib/misc/spsc_bounded_queue.h:61-76 | dequeue succeeds exactly when an item is held and delivers the oldest; on failure `out` and the ring are unchanged except the tail cache; the producer's fields are untouched |
| `SpscQueue.Clear` | lib/misc/spsc_bounded_queue.h:78-81 | clearing leaves the ring valid and empty with head equal to tail, and no slot object alive |
| `SpscQueue.ApproxSize` | lib/misc/spsc_bounded_queue.h:84-88 | `(tail + Capacity - head) & Mask` is always below Capacity; `ApproxSizeIsCount` relates it to the items held |
| `SpscQueue.ApproxSizeIsCount` | lib/misc/spsc_bounded_queue.h:84-88 | without concurrent calls, `approx_size` is exactly the number of items held |
| `SpscScenarios.Replay` | lib/misc/spsc_bounded_queue.h:39-76 | any sequence of enqueue and dequeue calls keeps the ring valid |
| `SpscScenarios.ReplayFifo` | lib/misc/spsc_bounded_queue.h:39-76 | over any run, the items held before plus those accepted equal those delivered plus those still held, in order |
| `SpscScenarios.FifoOverAnyRun` | lib/misc/spsc_bounded_queue.h:29-76 | from a new ring, the consumer receives a prefix of exactly the accepted items in order, none lost or duplicated |
| `SpscScenarios.CapacityTwoHoldsOne` | tests/test_spsc_queue.cpp:67-79 | capacity 2 holds one item: the second enqueue fails and the dequeue yields the first item |
| `SpscScenarios.WrapAround` | tests/test_spsc_queue.cpp:81-97 | alternating enqueue and dequeue of 0..7 on capacity 4 yields 0..7 in order across wrap-around |
| `SpscScenarios.ApproxSizeSingleThread` | tests/test_spsc_queue.cpp:130-141 | `approx_size` is 0 when empty, positive after one enqueue and 0 after the dequeue |
| `SpscScenarios.EmplaceConstructsAndDestroys` | tests/test_spsc_queue.cpp:50-65 | the emplaced 7 is what dequeue delivers, and after clear no slot object is alive |
| `MpscQueue.Init` | lib/misc/mpsc_bounded_queue.h:54-58 | slot i is stamped i and empty, head and tail are 0, and with a power-of-two capacity this is the valid empty queue |
| `MpscQueue.SlotOf` | lib/misc/mpsc_bounded_queue.h:70 | `ticket & mask` always names a slot, below Capacity; `TicketSlot` relates it to the head's slot |
| `MpscQueue.TicketSlot` | lib/misc/mpsc_bounded_queue.h:70 | with a power-of-two capacity, the masked slot of ticket head + d is d places after the head's slot, across 32-bit wrap-around |
| `MpscQueue.TryPush` | lib/misc/mpsc_bounded_queue.h:68-80 | try_push always reports success, advances the tail by one modulo 2^32, and writes only the ticket's slot, with the item and the stamp ticket + 1 |
| `MpscQueue.PushReady` | lib/misc/mpsc_bounded_queue.h:73-75 | the wait in `try_push` ends when the ticket's slot carries a stamp equal to the ticket; `PushReadyIffRoom` proves this is exactly "not full" |
| `MpscQueue.PushReadyIffRoom` | lib/misc/mpsc_bounded_queue.h:73-75 | on a valid queue the ticket's slot is free, so the wait ends at once, exactly when fewer than Capacity items are held |
| `MpscQueue.TryPushAppends` | lib/misc/mpsc_bounded_queue.h:69-78 | a push into a queue with room keeps the slot invariant and appends exactly the pushed item |
| `MpscQueue.TryPushThrowing` | lib/misc/mpsc_bounded_queue.h:68-80 | when `T`'s constructor throws in `construct`, the ticket is taken and the tail advanced, but no slot is written or restamped |
| `MpscQueue.ThrowingPushWedges` | lib/misc/mpsc_bounded_queue.h:68-96 | a throwing push into an empty queue wedges it: `try_pop` then fails and changes nothing, so it fails on every later call, and the producer of ticket head + Capacity waits on a slot whose stamp never matches |
| `MpscQueue.TryPop` | lib/misc/mpsc_bounded_queue.h:82-96 | try_pop succeeds exactly when the head's slot is stamped head + 1; on failure nothing changes; on success the slot is emptied and restamped head + Capacity and the head advances by one modulo 2^32 |
| `MpscQueue.TryPopRemovesOldest` | lib/misc/mpsc_bounded_queue.h:84-95 | on a valid queue try_pop succeeds exactly when an item is held, delivers the oldest, removes only it, and keeps the slot invariant |
| `MpscQueue.Drain` | lib/misc/mpsc_bounded_queue.h:60-64 | the destructor's loop destroys exactly the held items, oldest first, and leaves no slot object alive with head equal to tail |
| `MpscScenarios.Replay` | lib/misc/mpsc_bounded_queue.h:68-96 | any sequence of pushes, up to the first that would wait, and pops keeps the queue valid |
| `MpscScenarios.ReplayFifo` | lib/misc/mpsc_bounded_queue.h:68-96 | over any run, the items held before plus those pushed equal those delivered plus those still held, in order |
| `MpscScenarios.FifoOverAnyRun` | lib/misc/mpsc_bounded_queue.h:54-96 | from a new power-of-two queue, the consumer receives a prefix of exactly the pushed items in ticket order |
| `MpscScenarios.CapacityThreeLosesItem` | lib/misc/mpsc_bounded_queue.h:26 | as written, capacity 3 compiles; two pushes land in the same slot, the first item is lost, and try_pop fails |
| `MpscScenarios.Create` | lib/misc/mpsc_bounded_queue.h:21-22 | with the PowerOfTwo constraint in force, construction yields the valid empty queue |
| `MpscScenarios.ConsecutiveTicketsUseDistinctSlots` | lib/misc/mpsc_bounded_queue.h:32 | with a power-of-two capacity, any Capacity consecutive tickets, wrapping at 2^32, use Capacity different slots |
| `MpscScenarios.FullQueueMakesProducerWait` | lib/misc/mpsc_bounded_queue.h:73-75 | after two pushes into capacity 2 a third producer would wait; one pop delivers the first item and frees that producer's slot |

## Left out

- The logger itself (lib/steroidslog/steroidslog.h) is not part of this
  model. Only the line prefix is modelled. The header holds:
  - one `Logger` singleton with a single
    `mpsc_bounded_queue<std::function<void()>, 1024>` (lines 90-91);
  - `enqueue`, which wraps the level, the format id and the arguments in a
    task and retries `try_push` with a yield until it succeeds (36-54);
  - one worker thread that pops and runs tasks until shutdown, then drains
    the queue (73-88);
  - each task formats with `std::vformat` and writes to `std::cout`
    (42-49).
- Memory orderings, atomics and thread interleavings are not modelled.
  - Each call runs to completion before the next begins.
  - The threaded producer/consumer tests (tests/test_spsc_queue.cpp:99-128)
    are therefore out of scope.
- MpscQueue.TryPush: the multi-producer window between taking a ticket and
  writing the slot is not modelled.
  - Ticket, write and stamp happen in one step.
  - The wait loop is the precondition `PushReady`. A push that would wait
    ends a replayed run instead.
- MpscQueue.TryPush: a constructor of `T` that throws leaves the queue
  wedged, as `ThrowingPushWedges` shows. The model promises nothing about
  recovery from that state. The logger's `std::function` element can throw
  while it is being constructed.
- SpscQueue.EmplaceImpl: `enqueue`, `emplace` and `dequeue` are
  `noexcept`, so a constructor or move assignment of `T` that throws calls
  `std::terminate`. That path is not modelled.
- Capacities above UINT32_MAX, which switch the MPSC index type to
  `std::size_t`, are not modelled. The model requires Capacity < 2^32.
- SPSC indices are modelled as values in [0, Capacity), as the code keeps
  them masked. The `std::size_t` width is therefore never reached.
- The retry-and-yield loops of tests/test_spsc_queue.cpp:88-93 are not
  modelled. On one thread, with capacity 4, each call succeeds the first
  time; the model proves that instead.
- The cache-line alignment, the `alignas` padding and `std::launder` are
  representation details with no sequential meaning.
- `static_map`'s in-place `storage` and `init_flag` are never used by
  `get`. The `value_deleter` that `get` attaches to each new value has a
  null flag, so it only deletes the value when the map itself is destroyed.
  None of these is modelled.
- Pseudomap.Get: `Value(args...)` is the parameter `made`. Construction
  side effects are not modelled.
- SpscQueue.Emplace: argument forwarding is the constructor function
  `construct`.
- SmallFunctions.FromCallable: the compile-time check `sizeof(F) <=
  BufSize` is a precondition.
  - In a program run, an oversized callable is a statement that does not
    compile, so it changes nothing.
  - The callable's own effects are the caller-supplied `run`.
- SmallFunctions.CopyAssign and SmallFunctions.MoveAssign: the C++
  self-assignment test `this != &o` is the flag `same`.
- SmallFunctions.CopyAssign: a throwing copy constructor is the flag
  `throws` of `CopyAssignAsWritten` and `CopyAssignOrThrow`, not of
  `CopyAssign`. In a program, a statement whose copy throws is caught right
  after it; unwinding through enclosing scopes is not modelled.
- SmallFunctions.CopyConstruct: a throwing copy constructor constructs
  nothing and the new variable never exists, so it is not a separate case.
- SmallFunctions.MoveConstruct and SmallFunctions.MoveAssign are `noexcept`
  but copy through `clone_`. A throwing copy there calls `std::terminate`,
  which is not modelled.
- SmallFunctions.Called: in a program, the effect of a call on the world is
  left out and only the callable's state change is kept.
- Pseudomap.Fnv1a32 on a byte sequence with no NUL stops at the end of the
  sequence. The C function would read past the end of the array.

## Findings

| source | as written | input that shows it | evidently intended | confidence | as-written member | corrected member |
|---|---|---|---|---|---|---|
| lib/misc/mpsc_bounded_queue.h:21-26 | the `PowerOfTwo` constraint on Capacity is commented out, so any Capacity >= 2 compiles, yet slots are chosen by `ticket & (Capacity - 1)` | Capacity 3 (mask 2). Push 10 and then 20: tickets 0 and 1 both use slot 0. Slot 0 carries stamp 1 after the first push, so the second push overwrites item 10. `try_pop` then sees stamp 2, not 1, and fails. | Capacity restricted to powers of two, so the next Capacity tickets use distinct slots | not executed | `MpscScenarios.CapacityThreeLosesItem` | `MpscScenarios.Create` |
| lib/misc/small_function.h:61-78 | copy assignment calls `destroy_` on the target and only then `o.clone_`; if the callable's copy constructor throws, `destroy_` still points at the destroyed object | A callable whose copy constructor throws, copied over a set SmallFunction. The exception leaves the assignment; the target's destructor (102-106) then destroys the same object a second time. | the target's pointers cleared once its object is destroyed, so a failed copy leaves it empty | not executed | `SmallFunctions.ThrowingCopyAssignDestroysTwice` | `SmallFunctions.CopyAssignOrThrow` |
| tests/test_pseudomap.cpp:50-53 | the test expects `pseudomap::get(id) = "twice"` to be ignored after `"once"`, but `get` returns a mutable reference to the stored value, so the assignment replaces it | id = fnv1a_32("key"). Assign "once", then "twice", then read: the read yields "twice". | a write-once registry in which the first text stored for an id is kept | not executed | `Pseudomap.ReassignOverwrites` | `Pseudomap.Register` |

`Pseudomap.RegisterWriteOnce` proves the write-once property of
`Pseudomap.Register`. `SmallFunctions.ThrowingCopyAssignDestroysOnce`
proves the corrected copy assignment destroys once, and the program model
under `SmallFunctions.EveryCallableDestroyedOnce` uses it. The MPSC whole-run lemmas start from
`MpscScenarios.Create`.
