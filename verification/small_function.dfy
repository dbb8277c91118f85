/** `SmallFunction<BufSize>`: a type-erased, fixed-buffer callable. Its
    observable behaviour is an ownership state machine, Empty or holding one
    callable object constructed in its buffer. Every callable object gets an
    identity so that constructions and destructions can be accounted for. */
module SmallFunctions {

  /** A SmallFunction is empty (all three function pointers null) or holds
      the callable `callable` as the buffer object with identity `obj`. */
  datatype SmallFunction<F> = Empty | Holds(callable: F, obj: nat)

  /** Lifetime ledger of callable objects constructed in SmallFunction
      buffers: identities are handed out in order from `next`; `live` are the
      objects not yet destroyed; `destroyed` logs every destructor call. */
  datatype Ledger = Ledger(next: nat, live: set<nat>, destroyed: seq<nat>)

  predicate NoDuplicates(s: seq<nat>)
  {
    forall i, j :: 0 <= i < j < |s| ==> s[i] != s[j]
  }

  /** Every object ever constructed is either live or destroyed, never both,
      and no object was destroyed twice. */
  predicate LedgerOk(L: Ledger)
  {
    && (forall id :: id in L.live ==> id < L.next)
    && (forall i :: 0 <= i < |L.destroyed| ==> L.destroyed[i] < L.next && L.destroyed[i] !in L.live)
    && NoDuplicates(L.destroyed)
    && (forall id :: 0 <= id < L.next ==> id in L.live || id in L.destroyed)
  }

  /** Each object constructed so far has been destroyed exactly once. */
  predicate AllDestroyedOnce(L: Ledger)
  {
    && NoDuplicates(L.destroyed)
    && (forall id :: 0 <= id < L.next ==> id in L.destroyed)
    && (forall i :: 0 <= i < |L.destroyed| ==> L.destroyed[i] < L.next)
  }

  const EmptyLedger := Ledger(0, {}, [])

  /** The objects a SmallFunction owns: none or its one buffer object. */
  function Ids<F>(f: SmallFunction<F>): set<nat>
  {
    if f.Holds? then {f.obj} else {}
  }

  /** `f` owns a live object, if it owns any. */
  predicate Owns<F>(L: Ledger, f: SmallFunction<F>)
  {
    Ids(f) <= L.live
  }

  // ---------------------------------------------------------------------
  // Ledger primitives: placement-new into a buffer and an explicit destructor call

  function ConstructObj(L: Ledger): (r: (nat, Ledger))
    requires LedgerOk(L)
    ensures LedgerOk(r.1)
    ensures r.0 !in L.live && r.0 !in L.destroyed
    ensures r.1.live == L.live + {r.0} && r.1.destroyed == L.destroyed
  {
    (L.next, Ledger(L.next + 1, L.live + {L.next}, L.destroyed))
  }

  function DestroyObj(L: Ledger, id: nat): (r: Ledger)
    requires LedgerOk(L) && id in L.live
    ensures LedgerOk(r)
    ensures r.live == L.live - {id} && r.destroyed == L.destroyed + [id]
    ensures r.next == L.next
  {
    Ledger(L.next, L.live - {id}, L.destroyed + [id])
  }

  /** `destroy_(*this)` if set: destroys the held object, if any. */
  function Release<F>(L: Ledger, f: SmallFunction<F>): (r: Ledger)
    requires LedgerOk(L) && Owns(L, f)
    ensures LedgerOk(r)
    ensures r.live == L.live - Ids(f)
    ensures f.Empty? ==> r == L
    ensures f.Holds? ==> r.destroyed == L.destroyed + [f.obj]
    ensures r.next == L.next
  {
    if f.Holds? then DestroyObj(L, f.obj) else L
  }

  /** `o.clone_(o, dst)` if set: a new object copied from the held one. */
  function Clone<F>(L: Ledger, o: SmallFunction<F>): (r: (SmallFunction<F>, Ledger))
    requires LedgerOk(L)
    ensures LedgerOk(r.1)
    ensures r.0.Empty? <==> o.Empty?
    ensures r.0.Holds? ==> r.0.callable == o.callable && r.0.obj !in L.live && r.0.obj !in L.destroyed
    ensures r.1.live == L.live + Ids(r.0) && r.1.destroyed == L.destroyed
  {
    if o.Holds? then
      var (id, L') := ConstructObj(L);
      (Holds(o.callable, id), L')
    else (Empty, L)
  }

  // ---------------------------------------------------------------------
  // The public interface

  /** `explicit operator bool`: whether a callable is held. */
  predicate IsSet<F>(f: SmallFunction<F>): (b: bool)
    ensures b <==> Ids(f) != {}
  {
    f.Holds?
  }

  /** `SmallFunction()`: empty, so `operator bool` is false. */
  function Default<F>(): (r: SmallFunction<F>)
    ensures !IsSet(r)
  {
    Empty
  }

  /** `SmallFunction(F f)`: the callable must fit the buffer (a compile-time
      check); the result holds it as a freshly constructed object. */
  function FromCallable<F>(L: Ledger, f: F, size: nat, bufSize: nat): (r: (SmallFunction<F>, Ledger))
    requires LedgerOk(L) && size <= bufSize
    ensures IsSet(r.0) && r.0.callable == f
    ensures r.0.obj !in L.live && r.0.obj !in L.destroyed
    ensures LedgerOk(r.1) && r.1.live == L.live + {r.0.obj} && r.1.destroyed == L.destroyed
  {
    var (id, L') := ConstructObj(L);
    (Holds(f, id), L')
  }

  /** Copy constructor: a copy of the source's callable, as a new object;
      the source is untouched. Copying an empty one yields an empty one. */
  function CopyConstruct<F>(L: Ledger, o: SmallFunction<F>): (r: (SmallFunction<F>, Ledger))
    requires LedgerOk(L)
    ensures IsSet(r.0) == IsSet(o)
    ensures r.0.Holds? ==> r.0.callable == o.callable && r.0.obj !in L.live
    ensures LedgerOk(r.1) && r.1.live == L.live + Ids(r.0) && r.1.destroyed == L.destroyed
  {
    Clone(L, o)
  }

  /** Move constructor: clones the source's callable into the target, then
      destroys the source's object and empties the source. Result: (target,
      source afterwards, ledger). */
  function MoveConstruct<F>(L: Ledger, o: SmallFunction<F>): (r: (SmallFunction<F>, SmallFunction<F>, Ledger))
    requires LedgerOk(L) && Owns(L, o)
    ensures !IsSet(r.1)
    ensures IsSet(r.0) == IsSet(o)
    ensures r.0.Holds? ==> r.0.callable == o.callable && r.0.obj !in L.live
    ensures LedgerOk(r.2) && r.2.live == L.live - Ids(o) + Ids(r.0)
    ensures o.Holds? ==> r.2.destroyed == L.destroyed + [o.obj]
    ensures o.Empty? ==> r.2 == L
  {
    if o.Holds? then
      var (t, L1) := Clone(L, o);
      (t, Empty, DestroyObj(L1, o.obj))
    else (Empty, Empty, L)
  }

  /** Copy assignment `t = o` whose copy does not throw. `same` says
      `&o == this`, in which case nothing happens. Otherwise t's old object
      is destroyed and t holds a copy of o's callable (or is empty when o
      is). The order of the two steps shows only when the copy throws; see
      `CopyAssignAsWritten`. */
  function CopyAssign<F>(L: Ledger, t: SmallFunction<F>, o: SmallFunction<F>, same: bool): (r: (SmallFunction<F>, Ledger))
    requires LedgerOk(L) && Owns(L, t) && Owns(L, o)
    requires same ==> t == o
    ensures same ==> r == (t, L)
    ensures !same ==> IsSet(r.0) == IsSet(o)
    ensures !same && r.0.Holds? ==> r.0.callable == o.callable && r.0.obj !in L.live
    ensures !same ==> r.1.destroyed == L.destroyed + (if t.Holds? then [t.obj] else [])
    ensures LedgerOk(r.1) && r.1.live == (if same then L.live else L.live - Ids(t) + Ids(r.0))
  {
    if same then (t, L)
    else
      var L1 := Release(L, t);
      Clone(L1, o)
  }

  /** Move assignment `t = std::move(o)`. Nothing happens on self-assignment;
      otherwise t's old object is destroyed, t takes o's callable and o ends
      empty. Result: (t afterwards, o afterwards, ledger). */
  function MoveAssign<F>(L: Ledger, t: SmallFunction<F>, o: SmallFunction<F>, same: bool): (r: (SmallFunction<F>, SmallFunction<F>, Ledger))
    requires LedgerOk(L) && Owns(L, t) && Owns(L, o)
    requires same ==> t == o
    requires !same ==> Ids(t) !! Ids(o)
    ensures same ==> r == (t, o, L)
    ensures !same ==> !IsSet(r.1) && IsSet(r.0) == IsSet(o)
    ensures !same && r.0.Holds? ==> r.0.callable == o.callable && r.0.obj !in L.live
    ensures LedgerOk(r.2)
    ensures r.2.live == (if same then L.live else L.live - Ids(t) - Ids(o) + Ids(r.0))
    ensures !same ==> r.2.destroyed == L.destroyed + (if t.Holds? then [t.obj] else [])
                                                 + (if o.Holds? then [o.obj] else [])
  {
    if same then (t, o, L)
    else
      var L1 := Release(L, t);
      if o.Holds? then
        var (t', L2) := Clone(L1, o);
        (t', Empty, DestroyObj(L2, o.obj))
      else (Empty, Empty, L1)
  }

  /** Destructor: destroys the held object iff there is one. */
  function Destroy<F>(L: Ledger, t: SmallFunction<F>): (r: Ledger)
    requires LedgerOk(L) && Owns(L, t)
    ensures LedgerOk(r) && r.live == L.live - Ids(t)
    ensures r.next == L.next
    ensures r.destroyed == L.destroyed + (if IsSet(t) then [t.obj] else [])
  {
    Release(L, t)
  }

  /** `operator()`: calls the held callable object in place. `run` maps the
      callable's state and the world `w` to its state after the call and the
      world after it, so a stateful (`mutable`) callable keeps its new state
      in the same buffer object. Calling an empty SmallFunction does
      nothing. */
  function Invoke<F, W>(t: SmallFunction<F>, run: (F, W) -> (F, W), w: W): (r: (SmallFunction<F>, W))
    ensures IsSet(r.0) == IsSet(t) && Ids(r.0) == Ids(t)
    ensures !IsSet(t) ==> r == (t, w)
    ensures IsSet(t) ==> r.0.callable == run(t.callable, w).0 && r.1 == run(t.callable, w).1
  {
    if t.Holds? then
      var (f, w') := run(t.callable, w);
      (Holds(f, t.obj), w')
    else (t, w)
  }

  /** A copy behaves as the original does, and so does the original after
      being copied from: the same effect on the world and the same state
      afterwards. */
  lemma CopyBehavesAsOriginal<F, W>(L: Ledger, o: SmallFunction<F>, run: (F, W) -> (F, W), w: W)
    requires LedgerOk(L)
    ensures var c := CopyConstruct(L, o).0;
            && Invoke(c, run, w).1 == Invoke(o, run, w).1
            && (IsSet(o) ==> Invoke(c, run, w).0.callable == Invoke(o, run, w).0.callable)
  {
  }

  /** A moved-to SmallFunction behaves as the source did; the moved-from one
      becomes a no-op. */
  lemma MoveTransfersBehaviour<F, W>(L: Ledger, o: SmallFunction<F>, run: (F, W) -> (F, W), w: W)
    requires LedgerOk(L) && Owns(L, o)
    ensures var (t, src, _) := MoveConstruct(L, o);
            && Invoke(t, run, w).1 == Invoke(o, run, w).1
            && (IsSet(o) ==> Invoke(t, run, w).0.callable == Invoke(o, run, w).0.callable)
            && Invoke(src, run, w) == (src, w)
  {
  }

  /** Each buffer object keeps its own state. With a callable that counts
      its calls and prints the count (a `mutable` lambda capturing `n = 0`):
      call `a`, copy it into `b`, call `a`, call `b`. The output is 1, 2, 2,
      because `b` copied the count 1 and then counts on its own. */
  lemma CopiesKeepTheirOwnState(L: Ledger)
    requires LedgerOk(L)
    ensures var count := (n: int, out: seq<int>) => (n + 1, out + [n + 1]);
            var (a0, L1) := FromCallable(L, 0, 4, 16);
            var (a1, w1) := Invoke(a0, count, []);
            var (b0, L2) := CopyConstruct(L1, a1);
            var (a2, w2) := Invoke(a1, count, w1);
            var (b1, w3) := Invoke(b0, count, w2);
            && w3 == [1, 2, 2]
            && a2.callable == 2 && b1.callable == 2 && a2.obj != b1.obj
  {
  }

  // ---------------------------------------------------------------------
  // Copy assignment when the callable's copy constructor throws

  /** The destructor as written: it calls `destroy_` whenever the pointer is
      set, whether or not the buffer object is still alive. */
  function DestroyAsWritten<F>(L: Ledger, t: SmallFunction<F>): (r: Ledger)
    ensures r.next == L.next && r.live == L.live - Ids(t)
    ensures r.destroyed == L.destroyed + (if IsSet(t) then [t.obj] else [])
  {
    if t.Holds? then Ledger(L.next, L.live - {t.obj}, L.destroyed + [t.obj]) else L
  }

  /** Copy assignment as written, where `throws` says the callable's copy
      constructor throws. The target's old object is destroyed before the
      copy is attempted. When the copy throws, the exception leaves before
      the three pointers are written, so the target still points at the
      object it has just destroyed. */
  function CopyAssignAsWritten<F>(L: Ledger, t: SmallFunction<F>, o: SmallFunction<F>, same: bool, throws: bool): (r: (SmallFunction<F>, Ledger))
    requires LedgerOk(L) && Owns(L, t) && Owns(L, o)
    requires same ==> t == o
    ensures !throws ==> r == CopyAssign(L, t, o, same)
    ensures throws && !same && IsSet(o) ==>
              && r.0 == t
              && r.1.live == L.live - Ids(t)
              && r.1.destroyed == L.destroyed + (if IsSet(t) then [t.obj] else [])
  {
    if same then (t, L)
    else if throws && o.Holds? then (t, Release(L, t))
    else CopyAssign(L, t, o, false)
  }

  /** The throwing copy of a set source over a set target, then the
      target's destructor (when the exception unwinds its scope): the
      target's old object is destroyed twice. */
  lemma ThrowingCopyAssignDestroysTwice<F>(L: Ledger, t: SmallFunction<F>, o: SmallFunction<F>)
    requires LedgerOk(L) && Owns(L, t) && Owns(L, o) && IsSet(t) && IsSet(o)
    ensures var (t1, L1) := CopyAssignAsWritten(L, t, o, false, true);
            var L2 := DestroyAsWritten(L1, t1);
            L2.destroyed == L.destroyed + [t.obj, t.obj] && !NoDuplicates(L2.destroyed)
  {
    var (t1, L1) := CopyAssignAsWritten(L, t, o, false, true);
    var L2 := DestroyAsWritten(L1, t1);
    var n := |L.destroyed|;
    assert L2.destroyed == L.destroyed + [t.obj] + [t.obj];
    assert L2.destroyed[n] == t.obj == L2.destroyed[n + 1];
  }

  /** Copy assignment that clears the three pointers once the old object is
      destroyed, so a throwing copy leaves the target empty. */
  function CopyAssignOrThrow<F>(L: Ledger, t: SmallFunction<F>, o: SmallFunction<F>, same: bool, throws: bool): (r: (SmallFunction<F>, Ledger))
    requires LedgerOk(L) && Owns(L, t) && Owns(L, o)
    requires same ==> t == o
    ensures LedgerOk(r.1) && Owns(r.1, r.0)
    ensures !throws ==> r == CopyAssign(L, t, o, same)
    ensures throws && !same && IsSet(o) ==> !IsSet(r.0)
    ensures !same && r.0.Holds? ==> r.0.obj !in L.live
    ensures !same ==> r.1.destroyed == L.destroyed + (if t.Holds? then [t.obj] else [])
    ensures r.1.live == (if same then L.live else L.live - Ids(t) + Ids(r.0))
  {
    if same then (t, L)
    else if throws && o.Holds? then (Empty, Release(L, t))
    else CopyAssign(L, t, o, false)
  }

  /** With the pointers cleared, the throwing copy followed by the target's
      destructor destroys the old object exactly once. */
  lemma ThrowingCopyAssignDestroysOnce<F>(L: Ledger, t: SmallFunction<F>, o: SmallFunction<F>)
    requires LedgerOk(L) && Owns(L, t) && Owns(L, o) && IsSet(t) && IsSet(o)
    ensures var (t1, L1) := CopyAssignOrThrow(L, t, o, false, true);
            var L2 := Destroy(L1, t1);
            L2.destroyed == L.destroyed + [t.obj] && NoDuplicates(L2.destroyed)
  {
  }

  // ---------------------------------------------------------------------
  // A scope of SmallFunction variables and every program over it

  /** The variables in scope, innermost last, and the ledger. */
  datatype Scope<F> = Scope(vars: seq<SmallFunction<F>>, ledger: Ledger, bufSize: nat)

  /** Statements a program can perform on the variables in scope; indices
      name variables. */
  datatype Action<!F> =
    | DeclareEmpty
    | DeclareFrom(f: F, size: nat)
    | DeclareCopy(src: nat)
    | DeclareMove(src: nat)
    | AssignCopy(dst: nat, src: nat, throws: bool)
    | AssignMove(dst: nat, src: nat)
    | Call(callee: nat, step: F -> F)
    | ExitScope

  /** Each live object is owned by exactly one variable, and every variable's
      object is live. */
  predicate ScopeOk<F>(s: Scope<F>)
  {
    && LedgerOk(s.ledger)
    && (forall i :: 0 <= i < |s.vars| ==> Owns(s.ledger, s.vars[i]))
    && (forall i, j :: 0 <= i < j < |s.vars| ==> Ids(s.vars[i]) !! Ids(s.vars[j]))
    && (forall id :: id in s.ledger.live ==> exists i :: 0 <= i < |s.vars| && id in Ids(s.vars[i]))
  }

  /** Declares a new innermost variable initialised to `v`, whose object (if
      any) is fresh in the ledger `L`. */
  function Declare<F>(s: Scope<F>, v: SmallFunction<F>, L: Ledger): (r: Scope<F>)
    requires ScopeOk(s) && LedgerOk(L) && L.live == s.ledger.live + Ids(v)
    requires Ids(v) !! s.ledger.live
    ensures ScopeOk(r) && r.vars == s.vars + [v] && r.ledger == L
  {
    var n := |s.vars|;
    var r := Scope(s.vars + [v], L, s.bufSize);
    assert forall i :: 0 <= i < n ==> r.vars[i] == s.vars[i];
    assert r.vars[n] == v;
    r
  }

  /** `SmallFunction<N> v(std::move(vars[j]));` */
  function DeclareMoved<F>(s: Scope<F>, j: nat): (r: Scope<F>)
    requires ScopeOk(s) && j < |s.vars|
    ensures ScopeOk(r) && |r.vars| == |s.vars| + 1 && r.ledger.next >= s.ledger.next
  {
    var n := |s.vars|;
    var (v, src, L) := MoveConstruct(s.ledger, s.vars[j]);
    var r := Scope(s.vars[j := src] + [v], L, s.bufSize);
    assert forall i :: 0 <= i < n && i != j ==> r.vars[i] == s.vars[i];
    assert r.vars[j] == Empty && r.vars[n] == v;
    r
  }

  /** `vars[i] = vars[j];`, where `throws` says the callable's copy
      constructor throws and the statement's exception is caught at once. */
  function AssignCopied<F>(s: Scope<F>, i: nat, j: nat, throws: bool): (r: Scope<F>)
    requires ScopeOk(s) && i < |s.vars| && j < |s.vars|
    ensures ScopeOk(r) && |r.vars| == |s.vars| && r.ledger.next >= s.ledger.next
  {
    var n := |s.vars|;
    var (t, L) := CopyAssignOrThrow(s.ledger, s.vars[i], s.vars[j], i == j, throws);
    var r := Scope(s.vars[i := t], L, s.bufSize);
    assert forall k :: 0 <= k < n && k != i ==> r.vars[k] == s.vars[k];
    assert forall id :: id in L.live ==> exists k :: 0 <= k < n && id in Ids(r.vars[k]) by {
      forall id | id in L.live
        ensures exists k :: 0 <= k < n && id in Ids(r.vars[k])
      {
        if id in Ids(t) {
          assert id in Ids(r.vars[i]);
        } else {
          var k :| 0 <= k < n && id in Ids(s.vars[k]);
          assert r.vars[k] == s.vars[k];
        }
      }
    }
    r
  }

  /** `vars[i] = std::move(vars[j]);` */
  function AssignMoved<F>(s: Scope<F>, i: nat, j: nat): (r: Scope<F>)
    requires ScopeOk(s) && i < |s.vars| && j < |s.vars|
    ensures ScopeOk(r) && |r.vars| == |s.vars| && r.ledger.next >= s.ledger.next
  {
    var n := |s.vars|;
    if i == j then s
    else
      var (t, o, L) := MoveAssign(s.ledger, s.vars[i], s.vars[j], false);
      var r := Scope(s.vars[i := t][j := o], L, s.bufSize);
      assert forall k :: 0 <= k < n && k != i && k != j ==> r.vars[k] == s.vars[k];
      assert r.vars[i] == t && r.vars[j] == o;
      assert forall id :: id in L.live ==> exists k :: 0 <= k < n && id in Ids(r.vars[k]) by {
        forall id | id in L.live
          ensures exists k :: 0 <= k < n && id in Ids(r.vars[k])
        {
          if id in Ids(t) {
            assert id in Ids(r.vars[i]);
          } else {
            var k :| 0 <= k < n && id in Ids(s.vars[k]);
            assert r.vars[k] == s.vars[k];
          }
        }
      }
      r
  }

  /** `vars[i]();`: the callable's own state changes in place, while what
      each variable owns stays as it was. */
  function Called<F>(s: Scope<F>, i: nat, step: F -> F): (r: Scope<F>)
    requires ScopeOk(s) && i < |s.vars|
    ensures ScopeOk(r) && |r.vars| == |s.vars| && r.ledger == s.ledger
    ensures forall k :: 0 <= k < |s.vars| ==> Ids(r.vars[k]) == Ids(s.vars[k])
  {
    var n := |s.vars|;
    var (v, _) := Invoke(s.vars[i], (f: F, u: ()) => (step(f), u), ());
    var r := Scope(s.vars[i := v], s.ledger, s.bufSize);
    assert forall k :: 0 <= k < n ==> Ids(r.vars[k]) == Ids(s.vars[k]);
    r
  }

  /** Leaves the innermost variable's scope, running its destructor. */
  function ExitInnermost<F>(s: Scope<F>): (r: Scope<F>)
    requires ScopeOk(s) && |s.vars| > 0
    ensures ScopeOk(r) && |r.vars| == |s.vars| - 1 && r.ledger.next == s.ledger.next
  {
    var n := |s.vars|;
    var L := Destroy(s.ledger, s.vars[n - 1]);
    Scope(s.vars[..n - 1], L, s.bufSize)
  }

  /** Runs one statement. A statement naming a variable that does not exist,
      or a callable too large for the buffer, does not compile and so is no
      part of any program; it leaves the scope as it is. */
  function Apply<F>(s: Scope<F>, a: Action<F>): (r: Scope<F>)
    requires ScopeOk(s)
    ensures ScopeOk(r)
    ensures r.ledger.next >= s.ledger.next
  {
    var n := |s.vars|;
    match a
    case DeclareEmpty => Declare(s, Default(), s.ledger)
    case DeclareFrom(f, size) =>
      if size > s.bufSize then s
      else
        var (v, L) := FromCallable(s.ledger, f, size, s.bufSize);
        Declare(s, v, L)
    case DeclareCopy(j) =>
      if j >= n then s
      else
        var (v, L) := CopyConstruct(s.ledger, s.vars[j]);
        Declare(s, v, L)
    case DeclareMove(j) => if j >= n then s else DeclareMoved(s, j)
    case AssignCopy(i, j, throws) => if i >= n || j >= n then s else AssignCopied(s, i, j, throws)
    case Call(i, step) => if i >= n then s else Called(s, i, step)
    case AssignMove(i, j) => if i >= n || j >= n then s else AssignMoved(s, i, j)
    case ExitScope => if n == 0 then s else ExitInnermost(s)
  }

  /** Runs a program, then leaves every scope (innermost first), running each
      remaining variable's destructor. */
  function Run<F>(s: Scope<F>, prog: seq<Action<F>>): (r: Scope<F>)
    requires ScopeOk(s)
    ensures ScopeOk(r) && r.vars == []
    decreases |prog|, |s.vars|
  {
    if |prog| > 0 then Run(Apply(s, prog[0]), prog[1..])
    else if |s.vars| > 0 then Run(ExitInnermost(s), [])
    else s
  }

  /** Whatever the program does with copies, moves and assignments, once all
      variables are gone every callable object ever constructed has been
      destroyed exactly once. */
  lemma EveryCallableDestroyedOnce<F>(prog: seq<Action<F>>, bufSize: nat)
    ensures var r := Run(Scope([], EmptyLedger, bufSize), prog);
            r.ledger.live == {} && AllDestroyedOnce(r.ledger)
  {
    var r := Run(Scope([], EmptyLedger, bufSize), prog);
    assert forall id :: id !in r.ledger.live;
  }
}
