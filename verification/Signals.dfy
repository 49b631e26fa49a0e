/**
 * The signal registry: `Signal::connect`, `disconnect`, `emit` and the
 * destructor. A signal holds a WeakSet of callback storages; each storage is
 * owned by the token `connect` returned, so a storage whose token is gone is
 * skipped and pruned by the next `emit`.
 */
module Signals {
  import opened Wrappers

  /** How a connected callback is called: by the emitter, or later on the event loop. */
  datatype ConnectionMode = Direct | Async

  /** The identity of a callback storage (its control block). */
  type StorageId = nat

  /**
   * A `SignalCallbackStorage`: the connection mode and the disconnected
   * flag. `alive` is true while a token still owns the storage; the callable
   * itself is identified with the storage.
   */
  datatype Storage = Storage(mode: ConnectionMode, disconnected: bool, alive: bool)

  /** A `SignalToken`: empty when default-constructed, otherwise the storage it owns. */
  datatype SignalToken = EmptyToken | Token(id: StorageId)

  /**
   * A `Signal`: `callbacks` is its WeakSet of storages; `heap` holds every
   * storage it created, and `next` is an identity no storage has yet.
   */
  datatype Signal = Signal(callbacks: set<StorageId>, heap: map<StorageId, Storage>, next: StorageId)

  /** One synchronous call of a callback with the emitted arguments. */
  datatype Invocation<A> = Invocation(id: StorageId, args: A)

  /**
   * What one `emit` does: the registry afterwards, the Direct calls in
   * iteration order, the calls whose exception was caught and logged, the
   * storages an async event was submitted for, and the argument tuple those
   * events share (created on the first Async entry).
   */
  datatype EmitResult<A> = EmitResult(
    signal: Signal,
    calls: seq<Invocation<A>>,
    errors: seq<StorageId>,
    submitted: seq<StorageId>,
    asyncArgs: Option<A>)

  /** The outcome of the loop of `emit`: as EmitResult, plus the storages found destroyed. */
  datatype Sweep<A> = Sweep(
    calls: seq<Invocation<A>>,
    errors: seq<StorageId>,
    submitted: seq<StorageId>,
    asyncArgs: Option<A>,
    dead: set<StorageId>)

  /** The reachable-state invariant of a signal. */
  predicate Valid(sig: Signal)
  {
    && sig.callbacks <= sig.heap.Keys
    && (forall id :: id in sig.heap ==> id < sig.next)
    && (forall id :: id in sig.callbacks ==> !sig.heap[id].disconnected)
  }

  /** `Signal()`: no callbacks. */
  function NewSignal(): (sig: Signal)
    ensures Valid(sig) && sig.callbacks == {}
  {
    Signal({}, map[], 0)
  }

  /** `ptr.lock()` succeeds: some token still owns the storage. */
  predicate Live(heap: map<StorageId, Storage>, id: StorageId)
  {
    id in heap && heap[id].alive
  }

  /** A storage `emit` calls synchronously: live, Direct and not disconnected. */
  predicate Callable(heap: map<StorageId, Storage>, id: StorageId)
  {
    Live(heap, id) && heap[id].mode == Direct && !heap[id].disconnected
  }

  /** A storage `emit` submits an async event for: live and Async. */
  predicate Deferred(heap: map<StorageId, Storage>, id: StorageId)
  {
    Live(heap, id) && heap[id].mode == Async
  }

  /** The storages called, in call order. */
  function CallIds<A>(calls: seq<Invocation<A>>): (ids: seq<StorageId>)
    ensures |ids| == |calls| && forall i :: 0 <= i < |calls| ==> ids[i] == calls[i].id
  {
    seq(|calls|, i requires 0 <= i < |calls| => calls[i].id)
  }

  /** `order` lists every element of `s` exactly once: one iteration of the WeakSet copy. */
  ghost predicate Enumerates(order: seq<StorageId>, s: set<StorageId>)
  {
    NoDuplicates(order) && (forall id :: id in order <==> id in s)
  }

  /**
   * `connect(callback, mode)`: a fresh storage, not disconnected, with the
   * given mode (the source's default is Direct), added to the WeakSet and
   * owned by the returned token.
   */
  function Connect(sig: Signal, mode: ConnectionMode): (r: (Signal, SignalToken))
    ensures r.1.Token? && r.1.id == sig.next
    ensures Valid(sig) ==> r.1.id !in sig.heap && Valid(r.0)
    ensures r.0.heap == sig.heap[r.1.id := Storage(mode, false, true)]
    ensures r.0.callbacks == sig.callbacks + {r.1.id}
  {
    var id := sig.next;
    (Signal(sig.callbacks + {id}, sig.heap[id := Storage(mode, false, true)], id + 1), Token(id))
  }

  /**
   * `disconnect(token)`: nothing for an empty token; otherwise the storage
   * is marked disconnected and erased from the WeakSet.
   */
  function Disconnect(sig: Signal, token: SignalToken): (r: Signal)
    ensures token.EmptyToken? ==> r == sig
    ensures token.Token? ==> r.callbacks == sig.callbacks - {token.id}
    ensures r.heap.Keys == sig.heap.Keys && r.next == sig.next
    ensures token.Token? && token.id in sig.heap ==> r.heap[token.id].disconnected
    ensures forall id :: id in sig.heap && (token.EmptyToken? || id != token.id) ==> r.heap[id] == sig.heap[id]
    ensures Valid(sig) ==> Valid(r)
  {
    match token
    case EmptyToken => sig
    case Token(id) =>
      var heap := if id in sig.heap then sig.heap[id := sig.heap[id].(disconnected := true)] else sig.heap;
      Signal(sig.callbacks - {id}, heap, sig.next)
  }

  /** The last owner of the token's storage is destroyed without disconnecting. */
  function DropToken(sig: Signal, token: SignalToken): (r: Signal)
    ensures r.callbacks == sig.callbacks && r.heap.Keys == sig.heap.Keys
    ensures token.Token? ==> !Live(r.heap, token.id)
    ensures forall id :: id in sig.heap && (token.EmptyToken? || id != token.id) ==> r.heap[id] == sig.heap[id]
    ensures Valid(sig) ==> Valid(r)
  {
    match token
    case EmptyToken => sig
    case Token(id) =>
      if id in sig.heap then sig.(heap := sig.heap[id := sig.heap[id].(alive := false)]) else sig
  }

  // ---- What a Direct callback does to the signal while `emit` runs it ----

  /**
   * One call a callback makes on its own signal while it runs: `emit` holds
   * no lock of the signal during the loop, and the storage lock is
   * recursive, so `connect`, `disconnect` (of any storage, its own
   * included) and dropping a token are all possible.
   */
  datatype Change =
    | Connects(mode: ConnectionMode)
    | Disconnects(token: SignalToken)
    | Drops(token: SignalToken)

  /**
   * `heap'` is a later state of `heap`: storages are only added, a mode
   * never changes, and neither a disconnect nor an expiry is undone.
   */
  predicate Evolves(heap: map<StorageId, Storage>, heap': map<StorageId, Storage>)
  {
    && heap.Keys <= heap'.Keys
    && forall id :: id in heap ==>
         && heap'[id].mode == heap[id].mode
         && (heap[id].disconnected ==> heap'[id].disconnected)
         && (!heap[id].alive ==> !heap'[id].alive)
  }

  /** A change, made through the operation it names. */
  function ApplyChange(sig: Signal, c: Change): (r: Signal)
    ensures Valid(sig) ==> Valid(r) && Evolves(sig.heap, r.heap)
  {
    match c
    case Connects(mode) => Connect(sig, mode).0
    case Disconnects(token) => Disconnect(sig, token)
    case Drops(token) => DropToken(sig, token)
  }

  /** The changes of one callback run, in order. */
  function ApplyChanges(sig: Signal, cs: seq<Change>): (r: Signal)
    ensures Valid(sig) ==> Valid(r) && Evolves(sig.heap, r.heap)
    decreases |cs|
  {
    if |cs| == 0 then sig else ApplyChanges(ApplyChange(sig, cs[0]), cs[1..])
  }

  /**
   * The signal once the loop has visited `id`: a callback that is called
   * makes the changes `effects(id)`; every other entry leaves it as it was.
   */
  function Visit(sig: Signal, id: StorageId, effects: StorageId -> seq<Change>): (r: Signal)
    ensures Valid(sig) ==> Valid(r) && Evolves(sig.heap, r.heap)
    ensures !Callable(sig.heap, id) ==> r == sig
  {
    if Callable(sig.heap, id) then ApplyChanges(sig, effects(id)) else sig
  }

  /** The signal once the loop has visited every entry of `order`. */
  function StateAfter(sig: Signal, order: seq<StorageId>, effects: StorageId -> seq<Change>): (r: Signal)
    ensures Valid(sig) ==> Valid(r) && Evolves(sig.heap, r.heap)
    decreases |order|
  {
    if |order| == 0 then sig else StateAfter(Visit(sig, order[0], effects), order[1..], effects)
  }

  /** The signal the loop sees when it reaches `order[k]`. */
  function VisitState(sig: Signal, order: seq<StorageId>, effects: StorageId -> seq<Change>, k: nat): Signal
    requires k <= |order|
  {
    StateAfter(sig, order[..k], effects)
  }

  /** Visiting `order[..k]` and then `order[k..]` is visiting `order`. */
  lemma {:induction false} StateAfterSplit(sig: Signal, order: seq<StorageId>, effects: StorageId -> seq<Change>, k: nat)
    requires k <= |order|
    ensures StateAfter(StateAfter(sig, order[..k], effects), order[k..], effects) == StateAfter(sig, order, effects)
    decreases k
  {
    if k == 0 {
      assert order[..0] == [] && order[0..] == order;
    } else {
      assert order[..k][0] == order[0] && order[..k][1..] == order[1..][..k - 1];
      assert order[k..] == order[1..][k - 1..];
      StateAfterSplit(Visit(sig, order[0], effects), order[1..], effects, k - 1);
    }
  }

  /** The callbacks in `ids` change nothing when they run. */
  predicate Inert(effects: StorageId -> seq<Change>, ids: set<StorageId>)
  {
    forall id :: id in ids ==> effects(id) == []
  }

  /** If no entry of `order` changes anything, the loop leaves the signal as it found it. */
  lemma {:induction false} StateAfterInert(sig: Signal, order: seq<StorageId>, effects: StorageId -> seq<Change>)
    requires forall i :: 0 <= i < |order| ==> effects(order[i]) == []
    ensures StateAfter(sig, order, effects) == sig
    decreases |order|
  {
    if |order| > 0 {
      assert Visit(sig, order[0], effects) == sig;
      StateAfterInert(sig, order[1..], effects);
    }
  }

  // ---- The loop of `emit` ----

  /**
   * The loop of `emit` over the copied WeakSet, in iteration order `order`.
   * Each entry is judged on the signal as the callbacks before it left it.
   * `failing` are the callbacks that throw; `asyncArgs` is the shared
   * argument tuple so far. What it calls, submits and prunes is stated by
   * SweepWithin, SweepCallsAtVisit, SweepSubmittedAtVisit, SweepDeadAtVisit
   * and SweepNoDuplicates.
   */
  function SweepCallbacks<A>(sig: Signal, order: seq<StorageId>, args: A, failing: set<StorageId>,
                             effects: StorageId -> seq<Change>, asyncArgs: Option<A>): (r: Sweep<A>)
    requires asyncArgs == None || asyncArgs == Some(args)
    ensures forall i :: 0 <= i < |r.calls| ==> r.calls[i].args == args
    ensures r.asyncArgs == if asyncArgs.None? && |r.submitted| == 0 then None else Some(args)
    decreases |order|
  {
    if |order| == 0 then Sweep([], [], [], asyncArgs, {})
    else
      var id := order[0];
      var next := Visit(sig, id, effects);
      if !Live(sig.heap, id) then
        // Expired storage: collected here, erased from the set after the loop.
        var rest := SweepCallbacks(next, order[1..], args, failing, effects, asyncArgs);
        rest.(dead := rest.dead + {id})
      else
        match sig.heap[id].mode
        case Direct =>
          var rest := SweepCallbacks(next, order[1..], args, failing, effects, asyncArgs);
          // Disconnected by an earlier callback of this loop: skipped.
          if sig.heap[id].disconnected then rest
          else
            // An exception from the callback is caught and logged; the loop goes on.
            rest.(calls := [Invocation(id, args)] + rest.calls,
                  errors := (if id in failing then [id] else []) + rest.errors)
        case Async =>
          var shared := if asyncArgs.None? then Some(args) else asyncArgs;
          var rest := SweepCallbacks(next, order[1..], args, failing, effects, shared);
          rest.(submitted := [id] + rest.submitted)
  }

  /** One step of the loop: what visiting the first entry adds to the sweep of the rest. */
  lemma SweepStep<A>(sig: Signal, order: seq<StorageId>, args: A, failing: set<StorageId>,
                     effects: StorageId -> seq<Change>, asyncArgs: Option<A>)
    requires asyncArgs == None || asyncArgs == Some(args)
    requires |order| > 0
    ensures var id := order[0];
            var shared := if Deferred(sig.heap, id) && asyncArgs.None? then Some(args) else asyncArgs;
            var r := SweepCallbacks(sig, order, args, failing, effects, asyncArgs);
            var rest := SweepCallbacks(Visit(sig, id, effects), order[1..], args, failing, effects, shared);
            && CallIds(r.calls) == (if Callable(sig.heap, id) then [id] else []) + CallIds(rest.calls)
            && r.errors == (if Callable(sig.heap, id) && id in failing then [id] else []) + rest.errors
            && r.submitted == (if Deferred(sig.heap, id) then [id] else []) + rest.submitted
            && r.dead == (if Live(sig.heap, id) then {} else {id}) + rest.dead
  {
    var id := order[0];
    var shared := if Deferred(sig.heap, id) && asyncArgs.None? then Some(args) else asyncArgs;
    var rest := SweepCallbacks(Visit(sig, id, effects), order[1..], args, failing, effects, shared);
    if Callable(sig.heap, id) {
      assert CallIds([Invocation(id, args)] + rest.calls) == [id] + CallIds(rest.calls);
    }
  }

  /**
   * The loop only calls, submits and prunes entries of `order`, and logs
   * exactly the calls that throw.
   */
  lemma {:induction false} SweepWithin<A>(sig: Signal, order: seq<StorageId>, args: A, failing: set<StorageId>,
                                          effects: StorageId -> seq<Change>, asyncArgs: Option<A>)
    requires asyncArgs == None || asyncArgs == Some(args)
    ensures var r := SweepCallbacks(sig, order, args, failing, effects, asyncArgs);
            && (forall id :: id in CallIds(r.calls) ==> id in order)
            && (forall id :: id in r.submitted ==> id in order)
            && (forall id :: id in r.dead ==> id in order)
            && (forall id :: id in r.errors <==> id in CallIds(r.calls) && id in failing)
    decreases |order|
  {
    if |order| > 0 {
      var id := order[0];
      var next := Visit(sig, id, effects);
      assert forall x :: x in order <==> x == id || x in order[1..];
      var shared := if Deferred(sig.heap, id) && asyncArgs.None? then Some(args) else asyncArgs;
      SweepStep(sig, order, args, failing, effects, asyncArgs);
      SweepWithin(next, order[1..], args, failing, effects, shared);
    }
  }

  /** The loop over `[id] + rest` visits `id` first. */
  lemma StateAfterCons(sig: Signal, id: StorageId, rest: seq<StorageId>, effects: StorageId -> seq<Change>)
    ensures StateAfter(sig, [id] + rest, effects) == StateAfter(Visit(sig, id, effects), rest, effects)
  {
    assert ([id] + rest)[0] == id && ([id] + rest)[1..] == rest;
  }

  /** The signal seen at a later visit is reached from the signal after the first visit. */
  lemma VisitShift(sig: Signal, order: seq<StorageId>, effects: StorageId -> seq<Change>, k: nat)
    requires 0 < k <= |order|
    ensures StateAfter(sig, order[..k], effects) == StateAfter(Visit(sig, order[0], effects), order[1..][..k - 1], effects)
  {
    assert order[..k][0] == order[0] && order[..k][1..] == order[1..][..k - 1];
  }

  /** A repeat-free sequence whose only value is `a`, and that holds it, is `[a]`. */
  lemma OnlyElement(s: seq<StorageId>, a: StorageId)
    requires NoDuplicates(s) && a in s
    requires forall x :: x in s ==> x == a
    ensures s == [a]
  {
    HeadsIn(s);
  }

  lemma HeadsIn(s: seq<StorageId>)
    ensures |s| > 0 ==> s[0] in s
    ensures |s| > 1 ==> s[1] in s
  {
  }

  /**
   * Over an order without repeats, the entry at position `k` is called iff
   * it is live, Direct and not disconnected on the signal the loop sees at
   * that visit.
   */
  lemma {:induction false} SweepCallsAtVisit<A>(sig: Signal, order: seq<StorageId>, args: A, failing: set<StorageId>,
                                           effects: StorageId -> seq<Change>, asyncArgs: Option<A>)
    requires asyncArgs == None || asyncArgs == Some(args)
    requires NoDuplicates(order)
    ensures var r := SweepCallbacks(sig, order, args, failing, effects, asyncArgs);
            forall k :: 0 <= k < |order| ==>
              (order[k] in CallIds(r.calls) <==> Callable(StateAfter(sig, order[..k], effects).heap, order[k]))
    decreases |order|
  {
    if |order| > 0 {
      var id := order[0];
      var next := Visit(sig, id, effects);
      assert order == [id] + order[1..];
      NoDuplicatesCons(id, order[1..]);
      var shared := if Deferred(sig.heap, id) && asyncArgs.None? then Some(args) else asyncArgs;
      SweepStep(sig, order, args, failing, effects, asyncArgs);
      SweepCallsAtVisit(next, order[1..], args, failing, effects, shared);
      SweepWithin(next, order[1..], args, failing, effects, shared);
      var r := SweepCallbacks(sig, order, args, failing, effects, asyncArgs);
      forall k | 0 <= k < |order|
        ensures order[k] in CallIds(r.calls) <==> Callable(StateAfter(sig, order[..k], effects).heap, order[k])
      {
        if k == 0 {
          assert order[..0] == [];
        } else {
          VisitShift(sig, order, effects, k);
          assert order[k] == order[1..][k - 1] && order[k] != id;
        }
      }
    }
  }

  /**
   * Over an order without repeats, the entry at position `k` gets an async
   * event iff it is live and Async on the signal the loop sees at that visit.
   */
  lemma {:induction false} SweepSubmittedAtVisit<A>(sig: Signal, order: seq<StorageId>, args: A, failing: set<StorageId>,
                                           effects: StorageId -> seq<Change>, asyncArgs: Option<A>)
    requires asyncArgs == None || asyncArgs == Some(args)
    requires NoDuplicates(order)
    ensures var r := SweepCallbacks(sig, order, args, failing, effects, asyncArgs);
            forall k :: 0 <= k < |order| ==>
              (order[k] in r.submitted <==> Deferred(StateAfter(sig, order[..k], effects).heap, order[k]))
    decreases |order|
  {
    if |order| > 0 {
      var id := order[0];
      var next := Visit(sig, id, effects);
      assert order == [id] + order[1..];
      NoDuplicatesCons(id, order[1..]);
      var shared := if Deferred(sig.heap, id) && asyncArgs.None? then Some(args) else asyncArgs;
      SweepStep(sig, order, args, failing, effects, asyncArgs);
      SweepSubmittedAtVisit(next, order[1..], args, failing, effects, shared);
      SweepWithin(next, order[1..], args, failing, effects, shared);
      var r := SweepCallbacks(sig, order, args, failing, effects, asyncArgs);
      forall k | 0 <= k < |order|
        ensures order[k] in r.submitted <==> Deferred(StateAfter(sig, order[..k], effects).heap, order[k])
      {
        if k == 0 {
          assert order[..0] == [];
        } else {
          VisitShift(sig, order, effects, k);
          assert order[k] == order[1..][k - 1] && order[k] != id;
        }
      }
    }
  }

  /**
   * Over an order without repeats, the entry at position `k` is recorded
   * for pruning iff it has expired on the signal the loop sees at that visit.
   */
  lemma {:induction false} SweepDeadAtVisit<A>(sig: Signal, order: seq<StorageId>, args: A, failing: set<StorageId>,
                                           effects: StorageId -> seq<Change>, asyncArgs: Option<A>)
    requires asyncArgs == None || asyncArgs == Some(args)
    requires NoDuplicates(order)
    ensures var r := SweepCallbacks(sig, order, args, failing, effects, asyncArgs);
            forall k :: 0 <= k < |order| ==>
              (order[k] in r.dead <==> !Live(StateAfter(sig, order[..k], effects).heap, order[k]))
    decreases |order|
  {
    if |order| > 0 {
      var id := order[0];
      var next := Visit(sig, id, effects);
      assert order == [id] + order[1..];
      NoDuplicatesCons(id, order[1..]);
      var shared := if Deferred(sig.heap, id) && asyncArgs.None? then Some(args) else asyncArgs;
      SweepStep(sig, order, args, failing, effects, asyncArgs);
      SweepDeadAtVisit(next, order[1..], args, failing, effects, shared);
      SweepWithin(next, order[1..], args, failing, effects, shared);
      var r := SweepCallbacks(sig, order, args, failing, effects, asyncArgs);
      forall k | 0 <= k < |order|
        ensures order[k] in r.dead <==> !Live(StateAfter(sig, order[..k], effects).heap, order[k])
      {
        if k == 0 {
          assert order[..0] == [];
        } else {
          VisitShift(sig, order, effects, k);
          assert order[k] == order[1..][k - 1] && order[k] != id;
        }
      }
    }
  }

  /** Over an order without repeats, no storage is called twice or submitted twice. */
  lemma {:induction false} SweepNoDuplicates<A>(sig: Signal, order: seq<StorageId>, args: A, failing: set<StorageId>,
                                                effects: StorageId -> seq<Change>, asyncArgs: Option<A>)
    requires asyncArgs == None || asyncArgs == Some(args)
    requires NoDuplicates(order)
    ensures var r := SweepCallbacks(sig, order, args, failing, effects, asyncArgs);
            NoDuplicates(CallIds(r.calls)) && NoDuplicates(r.submitted)
    decreases |order|
  {
    if |order| > 0 {
      var id := order[0];
      var next := Visit(sig, id, effects);
      assert order == [id] + order[1..];
      NoDuplicatesCons(id, order[1..]);
      var shared := if Deferred(sig.heap, id) && asyncArgs.None? then Some(args) else asyncArgs;
      SweepStep(sig, order, args, failing, effects, asyncArgs);
      SweepNoDuplicates(next, order[1..], args, failing, effects, shared);
      SweepWithin(next, order[1..], args, failing, effects, shared);
      var rest := SweepCallbacks(next, order[1..], args, failing, effects, shared);
      if Callable(sig.heap, id) {
        NoDuplicatesCons(id, CallIds(rest.calls));
      } else if Deferred(sig.heap, id) {
        NoDuplicatesCons(id, rest.submitted);
      }
    }
  }

  /**
   * `emit(args...)`: one sweep over a copy of the WeakSet, then the
   * storages found destroyed are erased from the WeakSet as the callbacks
   * left it. The WeakSet is ordered by address, so `order` may be any
   * enumeration of the callbacks; `effects(id)` is what callback `id` does
   * to the signal when called.
   */
  function Emit<A>(sig: Signal, order: seq<StorageId>, args: A, failing: set<StorageId>,
                   effects: StorageId -> seq<Change>): (r: EmitResult<A>)
    requires Enumerates(order, sig.callbacks)
    // The entry at position k is called iff, when the loop reaches it, it is live, Direct and not disconnected.
    ensures forall k :: 0 <= k < |order| ==>
              (order[k] in CallIds(r.calls) <==> Callable(VisitState(sig, order, effects, k).heap, order[k]))
    // Only entries of the copy are called, each once, with the emitted arguments.
    ensures forall id :: id in CallIds(r.calls) ==> id in sig.callbacks
    ensures NoDuplicates(CallIds(r.calls))
    ensures forall i :: 0 <= i < |r.calls| ==> r.calls[i].args == args
    // A throwing callback is logged, not propagated.
    ensures forall id :: id in r.errors <==> id in CallIds(r.calls) && id in failing
    // Async callbacks are deferred: one event per entry live and Async at its visit, sharing one tuple.
    ensures forall k :: 0 <= k < |order| ==>
              (order[k] in r.submitted <==> Deferred(VisitState(sig, order, effects, k).heap, order[k]))
    ensures forall id :: id in r.submitted ==> id in sig.callbacks
    ensures NoDuplicates(r.submitted)
    ensures r.asyncArgs == if |r.submitted| == 0 then None else Some(args)
    // The callbacks' changes are kept, and entries found expired at their visit are erased.
    ensures r.signal.heap == StateAfter(sig, order, effects).heap && r.signal.next == StateAfter(sig, order, effects).next
    ensures forall k :: 0 <= k < |order| ==>
              (order[k] in r.signal.callbacks <==>
                 order[k] in StateAfter(sig, order, effects).callbacks && Live(VisitState(sig, order, effects, k).heap, order[k]))
    ensures forall id :: id !in sig.callbacks ==> (id in r.signal.callbacks <==> id in StateAfter(sig, order, effects).callbacks)
    ensures Valid(sig) ==> Valid(r.signal)
  {
    var sweep := SweepCallbacks(sig, order, args, failing, effects, None);
    SweepWithin(sig, order, args, failing, effects, None);
    SweepCallsAtVisit(sig, order, args, failing, effects, None);
    SweepSubmittedAtVisit(sig, order, args, failing, effects, None);
    SweepDeadAtVisit(sig, order, args, failing, effects, None);
    SweepNoDuplicates(sig, order, args, failing, effects, None);
    var after := StateAfter(sig, order, effects);
    EmitResult(after.(callbacks := after.callbacks - sweep.dead), sweep.calls, sweep.errors, sweep.submitted, sweep.asyncArgs)
  }

  /**
   * On a reachable signal, emit never calls a callback that was
   * disconnected or destroyed before it started, nor one connected while
   * it runs; and it calls every callback of the copy that is still live,
   * Direct and connected once it is done.
   */
  lemma EmitCallsOnlyConnected<A>(sig: Signal, order: seq<StorageId>, args: A, failing: set<StorageId>,
                                  effects: StorageId -> seq<Change>)
    requires Valid(sig) && Enumerates(order, sig.callbacks)
    ensures var r := Emit(sig, order, args, failing, effects);
            && (forall id :: id in CallIds(r.calls) ==> id in sig.callbacks && Callable(sig.heap, id))
            && (forall id :: id in sig.callbacks && Callable(StateAfter(sig, order, effects).heap, id) ==> id in CallIds(r.calls))
  {
    var r := Emit(sig, order, args, failing, effects);
    var final := StateAfter(sig, order, effects);
    forall id | id in CallIds(r.calls)
      ensures id in sig.callbacks && Callable(sig.heap, id)
    {
      var k :| 0 <= k < |order| && order[k] == id;
      var seen := VisitState(sig, order, effects, k);
      assert Evolves(sig.heap, seen.heap);
    }
    forall id | id in sig.callbacks && Callable(final.heap, id)
      ensures id in CallIds(r.calls)
    {
      var k :| 0 <= k < |order| && order[k] == id;
      var seen := VisitState(sig, order, effects, k);
      StateAfterSplit(sig, order, effects, k);
      assert Evolves(seen.heap, final.heap);
    }
  }

  /**
   * If the callbacks change nothing, emit judges every entry on the signal
   * as it was: it calls exactly the live, connected Direct callbacks,
   * defers exactly the live Async ones, and only prunes the expired ones.
   */
  lemma EmitInert<A>(sig: Signal, order: seq<StorageId>, args: A, failing: set<StorageId>,
                     effects: StorageId -> seq<Change>)
    requires Enumerates(order, sig.callbacks) && Inert(effects, sig.callbacks)
    ensures var r := Emit(sig, order, args, failing, effects);
            && (forall id :: id in CallIds(r.calls) <==> id in sig.callbacks && Callable(sig.heap, id))
            && (forall id :: id in r.submitted <==> id in sig.callbacks && Deferred(sig.heap, id))
            && r.signal == sig.(callbacks := set id | id in sig.callbacks && Live(sig.heap, id))
  {
    var r := Emit(sig, order, args, failing, effects);
    StateAfterInert(sig, order, effects);
    forall k | 0 <= k <= |order| ensures VisitState(sig, order, effects, k) == sig {
      StateAfterInert(sig, order[..k], effects);
    }
    forall id | id in sig.callbacks
      ensures && (id in CallIds(r.calls) <==> Callable(sig.heap, id))
              && (id in r.submitted <==> Deferred(sig.heap, id))
              && (id in r.signal.callbacks <==> Live(sig.heap, id))
    {
      var k :| 0 <= k < |order| && order[k] == id;
      assert VisitState(sig, order, effects, k) == sig;
    }
  }

  /**
   * Running one submitted async event later: it calls the callback with
   * the shared arguments only if the storage is still live and not
   * disconnected by then.
   */
  function RunAsyncEvent<A>(sig: Signal, id: StorageId, args: A): (r: Option<Invocation<A>>)
    ensures r.Some? <==> Live(sig.heap, id) && !sig.heap[id].disconnected
    ensures r.Some? ==> r.value == Invocation(id, args)
  {
    if Live(sig.heap, id) && !sig.heap[id].disconnected then Some(Invocation(id, args)) else None
  }

  /** `~Signal()`: every live storage still in the WeakSet is marked disconnected. */
  function Destroy(sig: Signal): (r: Signal)
    ensures r.heap.Keys == sig.heap.Keys
    ensures forall id :: id in sig.callbacks && Live(sig.heap, id) ==> r.heap[id] == sig.heap[id].(disconnected := true)
    ensures forall id :: id in sig.heap && !(id in sig.callbacks && Live(sig.heap, id)) ==> r.heap[id] == sig.heap[id]
  {
    var heap := map id | id in sig.heap ::
      if id in sig.callbacks && sig.heap[id].alive then sig.heap[id].(disconnected := true) else sig.heap[id];
    sig.(heap := heap)
  }

  // ---- Properties relating several operations ----

  /**
   * A callback connected Direct is called exactly once by the next emit,
   * when no callback changes the signal during it.
   */
  lemma ConnectThenEmit<A>(sig: Signal, order: seq<StorageId>, args: A, failing: set<StorageId>,
                           effects: StorageId -> seq<Change>)
    requires Valid(sig)
    requires Enumerates(order, Connect(sig, Direct).0.callbacks)
    requires Inert(effects, Connect(sig, Direct).0.callbacks)
    ensures var (sig', token) := Connect(sig, Direct);
            var r := Emit(sig', order, args, failing, effects);
            && token.id in CallIds(r.calls)
            && token.id !in r.submitted
            && forall i, j :: 0 <= i < j < |r.calls| ==> r.calls[i] != r.calls[j]
  {
    var (sig', token) := Connect(sig, Direct);
    var r := Emit(sig', order, args, failing, effects);
    EmitInert(sig', order, args, failing, effects);
    assert Callable(sig'.heap, token.id);
    forall i, j | 0 <= i < j < |r.calls| ensures r.calls[i] != r.calls[j] {
      assert CallIds(r.calls)[i] != CallIds(r.calls)[j];
    }
  }

  /**
   * A callback connected Async is not called by the emit itself; one event
   * is submitted for it, and running that event calls it with the emitted
   * arguments.
   */
  lemma ConnectAsyncThenEmit<A>(sig: Signal, order: seq<StorageId>, args: A, failing: set<StorageId>,
                                effects: StorageId -> seq<Change>)
    requires Valid(sig)
    requires Enumerates(order, Connect(sig, Async).0.callbacks)
    requires Inert(effects, Connect(sig, Async).0.callbacks)
    ensures var (sig', token) := Connect(sig, Async);
            var r := Emit(sig', order, args, failing, effects);
            && token.id !in CallIds(r.calls)
            && token.id in r.submitted
            && r.asyncArgs == Some(args)
            && RunAsyncEvent(r.signal, token.id, r.asyncArgs.value) == Some(Invocation(token.id, args))
  {
    var (sig', token) := Connect(sig, Async);
    EmitInert(sig', order, args, failing, effects);
    assert Deferred(sig'.heap, token.id);
  }

  /**
   * After `disconnect`, no emit calls the callback, submits an event for
   * it, or lets an event submitted earlier run it, whatever its callbacks do.
   */
  lemma DisconnectSilences<A>(sig: Signal, id: StorageId, order: seq<StorageId>, args: A, failing: set<StorageId>,
                              effects: StorageId -> seq<Change>)
    requires Valid(sig)
    requires Enumerates(order, Disconnect(sig, Token(id)).callbacks)
    ensures var sig' := Disconnect(sig, Token(id));
            var r := Emit(sig', order, args, failing, effects);
            && id !in CallIds(r.calls)
            && id !in r.submitted
            && RunAsyncEvent(sig', id, args) == None
  {
  }

  /**
   * A callback that disconnects a later entry of the same emit keeps it
   * from being called: the loop re-reads the disconnected flag at each visit.
   */
  lemma DisconnectDuringEmit<A>(sig: Signal, a: StorageId, b: StorageId, args: A, failing: set<StorageId>,
                                effects: StorageId -> seq<Change>)
    requires Valid(sig) && sig.callbacks == {a, b} && a != b
    requires Callable(sig.heap, a) && Callable(sig.heap, b)
    requires effects(a) == [Disconnects(Token(b))]
    ensures var r := Emit(sig, [a, b], args, failing, effects);
            && CallIds(r.calls) == [a]
            && b !in r.signal.callbacks && r.signal.heap[b].disconnected
  {
    var order := [a, b];
    var s1 := Disconnect(sig, Token(b));
    assert ApplyChanges(sig, effects(a)) == s1;
    assert order[..0] == [] && order[..1] == [a] + [] && order == [a] + [b];
    StateAfterCons(sig, a, [], effects);
    StateAfterCons(sig, a, [b], effects);
    StateAfterCons(s1, b, [], effects);
    assert !Callable(s1.heap, b);
    assert VisitState(sig, order, effects, 1) == s1;
    assert StateAfter(sig, order, effects) == s1;
    var r := Emit(sig, order, args, failing, effects);
    assert order[0] == a && order[1] == b;
    OnlyElement(CallIds(r.calls), a);
  }

  /**
   * A callback that drops the last token of a later entry of the same emit
   * keeps it from being called, and that entry is pruned by this emit.
   */
  lemma DropDuringEmit<A>(sig: Signal, a: StorageId, b: StorageId, args: A, failing: set<StorageId>,
                          effects: StorageId -> seq<Change>)
    requires Valid(sig) && sig.callbacks == {a, b} && a != b
    requires Callable(sig.heap, a) && Callable(sig.heap, b)
    requires effects(a) == [Drops(Token(b))]
    ensures var r := Emit(sig, [a, b], args, failing, effects);
            && CallIds(r.calls) == [a]
            && r.signal.callbacks == {a}
  {
    var order := [a, b];
    var s1 := DropToken(sig, Token(b));
    assert ApplyChanges(sig, effects(a)) == s1;
    assert order[..0] == [] && order[..1] == [a] + [] && order == [a] + [b];
    StateAfterCons(sig, a, [], effects);
    StateAfterCons(sig, a, [b], effects);
    StateAfterCons(s1, b, [], effects);
    assert !Callable(s1.heap, b);
    assert VisitState(sig, order, effects, 1) == s1;
    assert StateAfter(sig, order, effects) == s1;
    assert s1.callbacks == {a, b} && Live(s1.heap, a) && !Live(s1.heap, b);
    var r := Emit(sig, order, args, failing, effects);
    assert order[0] == a && order[1] == b;
    OnlyElement(CallIds(r.calls), a);
    assert a in r.signal.callbacks && b !in r.signal.callbacks;
  }

  /**
   * A callback connected by a callback during emit joins the WeakSet but is
   * not called by that emit, which iterates over a copy.
   */
  lemma ConnectDuringEmit<A>(sig: Signal, a: StorageId, args: A, failing: set<StorageId>,
                             effects: StorageId -> seq<Change>)
    requires Valid(sig) && sig.callbacks == {a} && Callable(sig.heap, a)
    requires effects(a) == [Connects(Direct)]
    ensures var r := Emit(sig, [a], args, failing, effects);
            && CallIds(r.calls) == [a]
            && sig.next in r.signal.callbacks && sig.next !in CallIds(r.calls)
  {
    var order := [a];
    var s1 := Connect(sig, Direct).0;
    assert ApplyChanges(sig, effects(a)) == s1;
    assert order[..0] == [] && order == [a] + [];
    StateAfterCons(sig, a, [], effects);
    assert StateAfter(sig, order, effects) == s1;
    assert sig.next !in sig.heap && sig.next in s1.callbacks;
    var r := Emit(sig, order, args, failing, effects);
    assert order[0] == a;
    OnlyElement(CallIds(r.calls), a);
  }

  /** Once the signal is destroyed, no pending async event of its callbacks runs. */
  lemma DestroySilencesEvents<A>(sig: Signal, id: StorageId, args: A)
    requires id in sig.callbacks
    ensures RunAsyncEvent(Destroy(sig), id, args) == None
  {
  }

  /** An async event whose token was destroyed before the event runs does nothing. */
  lemma DroppedTokenSilencesEvents<A>(sig: Signal, token: SignalToken, args: A)
    requires token.Token?
    ensures RunAsyncEvent(DropToken(sig, token), token.id, args) == None
  {
  }

  /** Throwing callbacks do not change which callbacks run, nor what is deferred or pruned. */
  lemma {:induction false} SweepIgnoresFailures<A>(sig: Signal, order: seq<StorageId>, args: A,
                                                   f1: set<StorageId>, f2: set<StorageId>,
                                                   effects: StorageId -> seq<Change>, asyncArgs: Option<A>)
    requires asyncArgs == None || asyncArgs == Some(args)
    ensures var r1, r2 := SweepCallbacks(sig, order, args, f1, effects, asyncArgs),
                          SweepCallbacks(sig, order, args, f2, effects, asyncArgs);
            r1.calls == r2.calls && r1.submitted == r2.submitted && r1.dead == r2.dead
    decreases |order|
  {
    if |order| > 0 {
      var id := order[0];
      var next := Visit(sig, id, effects);
      if !Live(sig.heap, id) || sig.heap[id].mode == Direct {
        SweepIgnoresFailures(next, order[1..], args, f1, f2, effects, asyncArgs);
      } else {
        var shared := if asyncArgs.None? then Some(args) else asyncArgs;
        SweepIgnoresFailures(next, order[1..], args, f1, f2, effects, shared);
      }
    }
  }

  lemma EmitIgnoresFailures<A>(sig: Signal, order: seq<StorageId>, args: A, f1: set<StorageId>, f2: set<StorageId>,
                               effects: StorageId -> seq<Change>)
    requires Enumerates(order, sig.callbacks)
    ensures Emit(sig, order, args, f1, effects).calls == Emit(sig, order, args, f2, effects).calls
    ensures Emit(sig, order, args, f1, effects).signal == Emit(sig, order, args, f2, effects).signal
  {
    SweepIgnoresFailures(sig, order, args, f1, f2, effects, None);
  }

  /**
   * With no token destroyed in between and callbacks that change nothing,
   * a second emit prunes nothing and calls the same callbacks.
   */
  lemma EmitPruneIdempotent<A>(sig: Signal, order: seq<StorageId>, order': seq<StorageId>, args: A,
                               failing: set<StorageId>, effects: StorageId -> seq<Change>)
    requires Enumerates(order, sig.callbacks) && Inert(effects, sig.callbacks)
    requires Enumerates(order', Emit(sig, order, args, failing, effects).signal.callbacks)
    ensures var sig' := Emit(sig, order, args, failing, effects).signal;
            && Emit(sig', order', args, failing, effects).signal == sig'
            && forall id :: id in CallIds(Emit(sig', order', args, failing, effects).calls) <==>
                              id in CallIds(Emit(sig, order, args, failing, effects).calls)
  {
    var sig' := Emit(sig, order, args, failing, effects).signal;
    EmitInert(sig, order, args, failing, effects);
    EmitInert(sig', order', args, failing, effects);
  }
}
