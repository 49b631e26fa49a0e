/**
 * `CancelManager` and `VoidCancelManager`: a once-only "cancel requested"
 * flag with a registry of callbacks that the first `cancel()` runs, and a
 * variant on which every operation does nothing.
 */
module CancelManagers {
  import opened Wrappers
  import opened Callbacks

  /** An active manager's flag and callback registry, or the void manager. */
  datatype CancelManager =
    | Active(cancelled: bool, registry: Registry)
    | VoidManager

  predicate ValidCancel(m: CancelManager)
  {
    m.Active? ==> ValidRegistry(m.registry)
  }

  /** `CancelManager()`: not cancelled, no callbacks. */
  function NewCancelManager(): (m: CancelManager)
    ensures m.Active? && !m.cancelled && m.registry.entries == [] && ValidCancel(m)
  {
    Active(false, EmptyRegistry())
  }

  /**
   * `is_cancel_requested()`: an active manager reports its flag; the void
   * manager never reports a request.
   */
  function IsCancelRequested(m: CancelManager): (r: bool)
    ensures m.VoidManager? ==> !r
    ensures m.Active? ==> (r <==> m.cancelled)
  {
    m.Active? && m.cancelled
  }

  /** `register_cancel_callback(f)`: stored under a fresh token, whether or not already cancelled. */
  function RegisterCancelCallback(m: CancelManager, f: CallbackId): (r: (CancelManager, Token))
    ensures m.VoidManager? ==> r.0 == m
    ensures m.Active? ==> r.0.Active? && r.0.cancelled == m.cancelled
    ensures m.Active? ==> r.0.registry.entries == m.registry.entries + [Registration(r.1, f)]
    ensures ValidCancel(m) ==> ValidCancel(r.0)
    ensures ValidCancel(m) && m.Active? ==> r.1 !in Tokens(m.registry.entries)
  {
    match m
    case VoidManager => (m, 0)
    case Active(cancelled, registry) =>
      var (registry', token) := Add(registry, f);
      (Active(cancelled, registry'), token)
  }

  /** `unregister_cancel_callback(token)`: drops that registration; the flag is untouched. */
  function UnregisterCancelCallback(m: CancelManager, token: Token): (r: CancelManager)
    ensures m.VoidManager? ==> r == m
    ensures m.Active? ==> r.Active? && r.cancelled == m.cancelled
    ensures m.Active? ==> forall x :: x in r.registry.entries <==> x in m.registry.entries && x.token != token
    ensures ValidCancel(m) ==> ValidCancel(r)
  {
    match m
    case VoidManager => m
    case Active(cancelled, registry) =>
      Active(cancelled, Remove(registry, token))
  }

  /**
   * `cancel()`: the first call on an active manager sets the flag and runs
   * every registered callback once, in registration order; any later call,
   * and every call on the void manager, does nothing. The second component
   * is the registrations run.
   */
  function Cancel(m: CancelManager): (r: (CancelManager, seq<Registration>))
    ensures IsCancelRequested(r.0) <==> m.Active?
    ensures m.Active? && !m.cancelled ==> r.0 == m.(cancelled := true) && r.1 == m.registry.entries
    ensures !(m.Active? && !m.cancelled) ==> r.0 == m && r.1 == []
  {
    match m
    case VoidManager => (m, [])
    case Active(cancelled, registry) =>
      if cancelled then (m, []) else (Active(true, registry), registry.entries)
  }

  // ---- Sequences of calls ----

  /** One call on a manager. */
  datatype CancelCall =
    | CancelRequest
    | RegisterCall(f: CallbackId)
    | UnregisterCall(token: Token)

  /** Applies one call; the second component is the registrations it ran. */
  function Step(m: CancelManager, call: CancelCall): (CancelManager, seq<Registration>)
  {
    match call
    case CancelRequest => Cancel(m)
    case RegisterCall(f) => (RegisterCancelCallback(m, f).0, [])
    case UnregisterCall(t) => (UnregisterCancelCallback(m, t), [])
  }

  /** Applies `calls` in order and collects every callback run. */
  function Run(m: CancelManager, calls: seq<CancelCall>): (CancelManager, seq<Registration>)
    decreases |calls|
  {
    if |calls| == 0 then (m, [])
    else
      var (m', fired) := Step(m, calls[0]);
      var (m'', later) := Run(m', calls[1..]);
      (m'', fired + later)
  }

  /** Once cancelled, a manager stays cancelled and no call runs a callback again. */
  lemma {:induction false} CancelledRunsNothing(m: CancelManager, calls: seq<CancelCall>)
    requires IsCancelRequested(m)
    ensures IsCancelRequested(Run(m, calls).0) && Run(m, calls).1 == []
    decreases |calls|
  {
    if |calls| > 0 {
      CancelledRunsNothing(Step(m, calls[0]).0, calls[1..]);
    }
  }

  /**
   * Whatever the calls, each registration runs at most once: everything run
   * is the registry at the first effective `cancel()`.
   */
  lemma {:induction false} EachCallbackRunsAtMostOnce(m: CancelManager, calls: seq<CancelCall>)
    requires ValidCancel(m)
    ensures NoDuplicates(Tokens(Run(m, calls).1))
    decreases |calls|
  {
    if |calls| > 0 {
      var (m', fired) := Step(m, calls[0]);
      if calls[0].CancelRequest? && m.Active? && !m.cancelled {
        CancelledRunsNothing(m', calls[1..]);
        assert Run(m, calls).1 == m.registry.entries;
      } else {
        assert fired == [];
        assert ValidCancel(m');
        EachCallbackRunsAtMostOnce(m', calls[1..]);
        assert Run(m, calls).1 == Run(m', calls[1..]).1;
      }
    }
  }

  /** The void manager never reports cancellation and never runs a callback. */
  lemma {:induction false} VoidRunsNothing(calls: seq<CancelCall>)
    ensures Run(VoidManager, calls).0 == VoidManager && Run(VoidManager, calls).1 == []
    decreases |calls|
  {
    if |calls| > 0 {
      assert Step(VoidManager, calls[0]) == (VoidManager, []);
      VoidRunsNothing(calls[1..]);
    }
  }

  // ---- The tested scenarios ----

  /** A fresh manager is not cancelled; `cancel()` sets the flag and a second call keeps it. */
  lemma CancelFlagScenario()
    ensures !IsCancelRequested(NewCancelManager())
    ensures IsCancelRequested(Cancel(NewCancelManager()).0)
    ensures IsCancelRequested(Cancel(Cancel(NewCancelManager()).0).0)
  {
  }

  /** A callback registered after cancellation is not run by a later `cancel()`. */
  lemma {:induction false} RegisterAfterCancelScenario(f: CallbackId)
    ensures var m := Cancel(Cancel(NewCancelManager()).0).0;
            var (m', token) := RegisterCancelCallback(m, f);
            Cancel(m').1 == []
  {
    var m := Cancel(Cancel(NewCancelManager()).0).0;
    assert IsCancelRequested(m);
  }

  /** A callback registered before the first `cancel()` runs once; a second `cancel()` runs nothing. */
  lemma {:induction false} RegisterBeforeCancelScenario(f: CallbackId)
    ensures var (m, token) := RegisterCancelCallback(NewCancelManager(), f);
            var (m', fired) := Cancel(m);
            && Callees(fired) == [f]
            && Cancel(m').1 == []
  {
    var (m, token) := RegisterCancelCallback(NewCancelManager(), f);
    assert m.registry.entries == [Registration(token, f)];
  }

  /** A callback unregistered before `cancel()` is not run. */
  lemma {:induction false} UnregisterBeforeCancelScenario(f: CallbackId)
    ensures var (m, token) := RegisterCancelCallback(NewCancelManager(), f);
            Cancel(UnregisterCancelCallback(m, token)).1 == []
  {
    var (m, token) := RegisterCancelCallback(NewCancelManager(), f);
    AddThenRemove(EmptyRegistry(), f);
  }

  /** The void manager: never cancelled, nothing run, with or without a registration. */
  lemma VoidScenario(f: CallbackId)
    ensures !IsCancelRequested(Cancel(VoidManager).0)
    ensures var (m, token) := RegisterCancelCallback(VoidManager, f);
            && Cancel(m).1 == [] && Cancel(Cancel(m).0).1 == []
            && Cancel(UnregisterCancelCallback(m, token)).1 == []
  {
  }
}
