/**
 * `OrderedMutex` bookkeeping: the per-thread claims, the set of threads
 * holding the lock and the four counters `unlock` maintains, together with
 * the pairwise compatibility of the four lock modes.
 */
module OrderedMutex {
  import opened Wrappers

  /** What a holder may do with the guarded resource. */
  datatype ThreadAccessMode = Read | ReadWrite

  /** What a holder lets other threads do at the same time. */
  datatype ThreadShareMode = Unique | SharedReadOnly | SharedReadWrite

  /** The `(access, share)` pair a thread acquires with. */
  datatype ThreadMode = ThreadMode(access: ThreadAccessMode, share: ThreadShareMode)

  type ThreadId = nat

  /**
   * The mutex state. `threads` maps each thread with an entry to its held
   * mode, or to None while it has no granted state; `lockedThreads` stands
   * for the source's `locked_threads` set, keyed by thread id.
   */
  datatype Mutex = Mutex(
    threads: map<ThreadId, Option<ThreadMode>>,
    lockedThreads: set<ThreadId>,
    readCount: int,
    writeCount: int,
    blockingReadCount: int,
    blockingWriteCount: int)

  /** The `std::runtime_error` `unlock` throws. */
  datatype LockError = NotLockedByThisThread

  /** The four counters of the mutex. */
  datatype Counter = ReadCounter | WriteCounter | BlockingReadCounter | BlockingWriteCounter

  /**
   * Which holders a counter counts: every holder, the ReadWrite holders, the
   * Unique holders, and the holders that forbid other writers.
   */
  predicate Counts(c: Counter, mode: ThreadMode)
  {
    match c
    case ReadCounter => true
    case WriteCounter => mode.access == ReadWrite
    case BlockingReadCounter => mode.share == Unique
    case BlockingWriteCounter => mode.share == Unique || mode.share == SharedReadOnly
  }

  function CounterValue(m: Mutex, c: Counter): int
  {
    match c
    case ReadCounter => m.readCount
    case WriteCounter => m.writeCount
    case BlockingReadCounter => m.blockingReadCount
    case BlockingWriteCounter => m.blockingWriteCount
  }

  /** The threads holding the lock in a mode counter `c` counts. */
  function Holders(threads: map<ThreadId, Option<ThreadMode>>, c: Counter): set<ThreadId>
  {
    set t | t in threads && threads[t].Some? && Counts(c, threads[t].value)
  }

  /** The counter invariant: each counter is the number of holders it counts. */
  predicate Consistent(m: Mutex)
  {
    && m.lockedThreads <= m.threads.Keys
    && forall c :: CounterValue(m, c) == |Holders(m.threads, c)|
  }

  /** A fresh `OrderedMutex`: no entries, all counters zero. */
  function NewMutex(): (m: Mutex)
    ensures Consistent(m) && m.threads == map[]
  {
    var m := Mutex(map[], {}, 0, 0, 0, 0);
    assert forall c :: Holders(m.threads, c) == {};
    m
  }

  /**
   * `unlock()` called by thread `t`: fails unless `t` holds a state;
   * otherwise the counters its mode contributes to drop by one and its
   * entries are erased.
   */
  function Unlock(m: Mutex, t: ThreadId): (r: Result<Mutex, LockError>)
    ensures r.Failure? <==> t !in m.threads || m.threads[t].None?
    ensures r.Failure? ==> r.error == NotLockedByThisThread
    ensures r.Success? ==> forall c :: CounterValue(r.value, c) == CounterValue(m, c) - if Counts(c, m.threads[t].value) then 1 else 0
    ensures r.Success? ==> r.value.threads == m.threads - {t} && r.value.lockedThreads == m.lockedThreads - {t}
    ensures r.Success? && Consistent(m) ==> Consistent(r.value)
  {
    if t !in m.threads || m.threads[t].None? then Failure(NotLockedByThisThread)
    else
      var mode := m.threads[t].value;
      var afterAccess := match mode.access
        case Read => m.(readCount := m.readCount - 1)
        case ReadWrite => m.(readCount := m.readCount - 1, writeCount := m.writeCount - 1);
      var afterShare := match mode.share
        case Unique => afterAccess.(blockingReadCount := afterAccess.blockingReadCount - 1,
                                    blockingWriteCount := afterAccess.blockingWriteCount - 1)
        case SharedReadOnly => afterAccess.(blockingWriteCount := afterAccess.blockingWriteCount - 1)
        case SharedReadWrite => afterAccess;
      var r := afterShare.(lockedThreads := afterShare.lockedThreads - {t}, threads := afterShare.threads - {t});
      HoldersRemove(m.threads, t);
      Success(r)
  }

  /** Erasing a holder's entry removes it from exactly the counters its mode is counted in. */
  lemma HoldersRemove(threads: map<ThreadId, Option<ThreadMode>>, t: ThreadId)
    requires t in threads && threads[t].Some?
    ensures forall c :: |Holders(threads - {t}, c)| == |Holders(threads, c)| - if Counts(c, threads[t].value) then 1 else 0
  {
    forall c ensures |Holders(threads - {t}, c)| == |Holders(threads, c)| - if Counts(c, threads[t].value) then 1 else 0 {
      assert Holders(threads - {t}, c) == Holders(threads, c) - {t};
    }
  }

  /** Adding an entry for a new thread adds it to exactly the counters its mode is counted in. */
  lemma HoldersAdd(threads: map<ThreadId, Option<ThreadMode>>, t: ThreadId, state: Option<ThreadMode>)
    requires t !in threads
    ensures forall c :: |Holders(threads[t := state], c)| == |Holders(threads, c)| + if state.Some? && Counts(c, state.value) then 1 else 0
  {
    forall c ensures |Holders(threads[t := state], c)| == |Holders(threads, c)| + if state.Some? && Counts(c, state.value) then 1 else 0 {
      if state.Some? && Counts(c, state.value) {
        assert Holders(threads[t := state], c) == Holders(threads, c) + {t};
      } else {
        assert Holders(threads[t := state], c) == Holders(threads, c);
      }
    }
  }

  // ---- Compatibility ----

  /** The four modes the lock tests acquire with. */
  datatype LockMode = UniqueLock | SharedReadOnlyLock | SharedReadLock | SharedReadWriteLock

  /** The `thread_mode` pair each test mode passes to `acquire`. */
  function ToThreadMode(l: LockMode): ThreadMode
  {
    match l
    case UniqueLock => ThreadMode(ReadWrite, Unique)
    case SharedReadOnlyLock => ThreadMode(Read, SharedReadOnly)
    case SharedReadLock => ThreadMode(Read, SharedReadWrite)
    case SharedReadWriteLock => ThreadMode(ReadWrite, SharedReadWrite)
  }

  /** The mode pairs the parallel test expects to run at the same time. */
  predicate TestedParallel(l1: LockMode, l2: LockMode)
  {
    || (l1 == SharedReadOnlyLock && l2 in [SharedReadOnlyLock, SharedReadLock])
    || (l1 == SharedReadLock && l2 in [SharedReadOnlyLock, SharedReadLock, SharedReadWriteLock])
    || (l1 == SharedReadWriteLock && l2 in [SharedReadLock, SharedReadWriteLock])
  }

  /**
   * Two claims from different threads may be held together: neither is
   * Unique, and neither forbids writers while the other writes.
   */
  predicate Compatible(a: ThreadMode, b: ThreadMode)
  {
    && a.share != Unique && b.share != Unique
    && !(a.share == SharedReadOnly && b.access == ReadWrite)
    && !(b.share == SharedReadOnly && a.access == ReadWrite)
  }

  /** The relation agrees with the test matrix on all sixteen pairs. */
  lemma CompatibleMatchesTests(l1: LockMode, l2: LockMode)
    ensures Compatible(ToThreadMode(l1), ToThreadMode(l2)) <==> TestedParallel(l1, l2)
  {
  }

  lemma CompatibleSymmetric(a: ThreadMode, b: ThreadMode)
    ensures Compatible(a, b) <==> Compatible(b, a)
  {
  }

  /** Not transitive: SharedRead sits between SharedReadOnly and SharedReadWrite. */
  lemma CompatibleNotTransitive()
    ensures var a, b, c := ToThreadMode(SharedReadOnlyLock), ToThreadMode(SharedReadLock), ToThreadMode(SharedReadWriteLock);
            Compatible(a, b) && Compatible(b, c) && !Compatible(a, c)
  {
  }

  /** Unique is compatible with nothing, itself included. */
  lemma UniqueExcludesAll(l: LockMode)
    ensures !TestedParallel(UniqueLock, l) && !TestedParallel(l, UniqueLock)
  {
  }

  /**
   * Decided from the counters: no Unique holder, no holder at all for a
   * Unique claim, no writer for a SharedReadOnly claim, and no holder that
   * forbids writers for a ReadWrite claim.
   */
  predicate CountersAdmit(m: Mutex, n: ThreadMode)
  {
    && m.blockingReadCount == 0
    && (n.share == Unique ==> m.readCount == 0)
    && (n.share == SharedReadOnly ==> m.writeCount == 0)
    && (n.access == ReadWrite ==> m.blockingWriteCount == 0)
  }

  /** A new claim is compatible with every current holder. */
  predicate CompatibleWithHolders(m: Mutex, n: ThreadMode)
  {
    forall t :: t in m.threads && m.threads[t].Some? ==> Compatible(n, m.threads[t].value)
  }

  /** A holder in a mode counter `c` counts makes that counter non-zero. */
  lemma HolderCounted(m: Mutex, t: ThreadId, c: Counter)
    requires Consistent(m)
    requires t in m.threads && m.threads[t].Some? && Counts(c, m.threads[t].value)
    ensures CounterValue(m, c) > 0
  {
    assert t in Holders(m.threads, c);
  }

  /** A non-zero counter has a holder it counts. */
  lemma CountedHolder(m: Mutex, c: Counter) returns (t: ThreadId)
    requires Consistent(m) && CounterValue(m, c) != 0
    ensures t in m.threads && m.threads[t].Some? && Counts(c, m.threads[t].value)
  {
    var s := Holders(m.threads, c);
    assert s != {};
    t :| t in s;
  }

  /** Under the counter invariant, the four counters decide compatibility with every holder. */
  lemma {:induction false} CountersDecideCompatibility(m: Mutex, n: ThreadMode)
    requires Consistent(m)
    ensures CountersAdmit(m, n) <==> CompatibleWithHolders(m, n)
  {
    if CountersAdmit(m, n) {
      forall t | t in m.threads && m.threads[t].Some?
        ensures Compatible(n, m.threads[t].value)
      {
        var h := m.threads[t].value;
        if h.share == Unique { HolderCounted(m, t, BlockingReadCounter); }
        if n.share == Unique { HolderCounted(m, t, ReadCounter); }
        if n.share == SharedReadOnly && h.access == ReadWrite { HolderCounted(m, t, WriteCounter); }
        if h.share == SharedReadOnly && n.access == ReadWrite { HolderCounted(m, t, BlockingWriteCounter); }
      }
    } else {
      var c := if m.blockingReadCount != 0 then BlockingReadCounter
               else if n.share == Unique && m.readCount != 0 then ReadCounter
               else if n.share == SharedReadOnly && m.writeCount != 0 then WriteCounter
               else BlockingWriteCounter;
      var t := CountedHolder(m, c);
      assert !Compatible(n, m.threads[t].value);
    }
  }

  // ---- The immediate acquire decision ----

  /** What an `acquire` call decides before any waiting. */
  datatype AcquireResult =
    | Deadlock            // the calling thread already has an entry
    | Granted(m: Mutex)   // the claim is held at once
    | NotAcquired         // non-blocking, and not grantable now
    | MustWait(m: Mutex)  // blocking: the thread is registered without a state

  /** True iff some thread has an entry without a granted state. */
  predicate HasWaiters(m: Mutex)
  {
    exists t :: t in m.threads && m.threads[t].None?
  }

  /** The state after thread `t` is granted a claim in `mode`. */
  function Claim(m: Mutex, t: ThreadId, mode: ThreadMode): Mutex
  {
    Mutex(m.threads[t := Some(mode)], m.lockedThreads + {t},
          m.readCount + 1,
          m.writeCount + (if mode.access == ReadWrite then 1 else 0),
          m.blockingReadCount + (if mode.share == Unique then 1 else 0),
          m.blockingWriteCount + (if mode.share != SharedReadWrite then 1 else 0))
  }

  /**
   * `acquire(blocking, thread_mode=mode)` by thread `t`, up to the point
   * where it would wait: re-entry is a deadlock; a claim compatible with
   * every holder and queued behind nobody is granted; otherwise a
   * non-blocking call fails and a blocking one waits.
   */
  function Acquire(m: Mutex, t: ThreadId, mode: ThreadMode, blocking: bool): (r: AcquireResult)
    ensures r.Deadlock? <==> t in m.threads
    ensures r.Granted? <==> t !in m.threads && CountersAdmit(m, mode) && !HasWaiters(m)
    ensures r.Granted? ==> r.m.threads == m.threads[t := Some(mode)] && r.m.lockedThreads == m.lockedThreads + {t}
    ensures r.Granted? ==> forall c :: CounterValue(r.m, c) == CounterValue(m, c) + if Counts(c, mode) then 1 else 0
    ensures r.NotAcquired? ==> !blocking
    ensures r.MustWait? ==> blocking && r.m == m.(threads := m.threads[t := None])
    ensures Consistent(m) && (r.Granted? || r.MustWait?) ==> Consistent(r.m)
  {
    if t in m.threads then Deadlock
    else if CountersAdmit(m, mode) && !HasWaiters(m) then
      HoldersAdd(m.threads, t, Some(mode));
      Granted(Claim(m, t, mode))
    else if !blocking then NotAcquired
    else
      HoldersAdd(m.threads, t, None);
      MustWait(m.(threads := m.threads[t := None]))
  }

  /** Under the counter invariant, a claim granted immediately is compatible with every holder. */
  lemma GrantedIsCompatible(m: Mutex, t: ThreadId, mode: ThreadMode, blocking: bool)
    requires Consistent(m)
    ensures Acquire(m, t, mode, blocking).Granted? ==> CompatibleWithHolders(m, mode)
  {
    CountersDecideCompatibility(m, mode);
  }

  /** Every two holders of a reachable state are compatible. */
  ghost predicate HoldersCompatible(m: Mutex)
  {
    forall t, u :: t in m.threads && u in m.threads && t != u && m.threads[t].Some? && m.threads[u].Some? ==>
      Compatible(m.threads[t].value, m.threads[u].value)
  }

  lemma {:induction false} AcquireKeepsHoldersCompatible(m: Mutex, t: ThreadId, mode: ThreadMode, blocking: bool)
    requires Consistent(m) && HoldersCompatible(m)
    ensures var r := Acquire(m, t, mode, blocking);
            (r.Granted? || r.MustWait?) ==> HoldersCompatible(r.m)
  {
    var r := Acquire(m, t, mode, blocking);
    if r.Granted? {
      CountersDecideCompatibility(m, mode);
      forall u, v | u in r.m.threads && v in r.m.threads && u != v && r.m.threads[u].Some? && r.m.threads[v].Some?
        ensures Compatible(r.m.threads[u].value, r.m.threads[v].value)
      {
        if u == t {
          assert Compatible(mode, m.threads[v].value);
        } else if v == t {
          assert Compatible(mode, m.threads[u].value);
          CompatibleSymmetric(mode, m.threads[u].value);
        }
      }
    }
  }

  lemma UnlockKeepsHoldersCompatible(m: Mutex, t: ThreadId)
    requires HoldersCompatible(m)
    ensures Unlock(m, t).Success? ==> HoldersCompatible(Unlock(m, t).value)
  {
  }

  /** A granted lock released by the same thread restores the state it was taken from. */
  lemma AcquireUnlockRoundTrip(m: Mutex, t: ThreadId, mode: ThreadMode, blocking: bool)
    requires Consistent(m)
    requires Acquire(m, t, mode, blocking).Granted?
    ensures Unlock(Acquire(m, t, mode, blocking).m, t) == Success(m)
  {
    var m' := Acquire(m, t, mode, blocking).m;
    assert m'.threads - {t} == m.threads;
    assert t !in m.lockedThreads;
    assert m'.lockedThreads - {t} == m.lockedThreads;
  }

  /** A fresh lock grants a non-blocking acquire in any mode, and release returns it to fresh. */
  lemma FreshLockGrants(t: ThreadId, mode: ThreadMode)
    ensures Acquire(NewMutex(), t, mode, false).Granted?
    ensures Unlock(Acquire(NewMutex(), t, mode, false).m, t) == Success(NewMutex())
  {
    AcquireUnlockRoundTrip(NewMutex(), t, mode, false);
  }

  /** Re-acquiring a held lock raises Deadlock, whatever the mode and blocking flag. */
  lemma ReacquireDeadlocks(m: Mutex, t: ThreadId, held: ThreadMode, mode: ThreadMode, blocking: bool)
    requires Acquire(m, t, held, true).Granted?
    ensures Acquire(Acquire(m, t, held, true).m, t, mode, blocking) == Deadlock
  {
  }

  /**
   * Two threads on a fresh lock: the second acquire succeeds at once
   * exactly for the pairs the tests run in parallel; for the others a
   * non-blocking call fails and a blocking one waits.
   */
  lemma {:induction false} SecondAcquireMatchesTests(t1: ThreadId, t2: ThreadId, l1: LockMode, l2: LockMode, blocking: bool)
    requires t1 != t2
    ensures var m := Acquire(NewMutex(), t1, ToThreadMode(l1), false).m;
            var r := Acquire(m, t2, ToThreadMode(l2), blocking);
            && (r.Granted? <==> TestedParallel(l1, l2))
            && (!TestedParallel(l1, l2) && !blocking ==> r == NotAcquired)
            && (!TestedParallel(l1, l2) && blocking ==> r.MustWait?)
  {
    FreshLockGrants(t1, ToThreadMode(l1));
    var m := Acquire(NewMutex(), t1, ToThreadMode(l1), false).m;
    assert Consistent(m);
    assert !HasWaiters(m);
    CountersDecideCompatibility(m, ToThreadMode(l2));
    assert m.threads[t1] == Some(ToThreadMode(l1));
    assert CompatibleWithHolders(m, ToThreadMode(l2)) <==> Compatible(ToThreadMode(l2), ToThreadMode(l1));
    CompatibleSymmetric(ToThreadMode(l2), ToThreadMode(l1));
    CompatibleMatchesTests(l1, l2);
  }
}
