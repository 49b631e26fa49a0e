# Amulet-Utils core, modelled in Dafny

This project models the sequential core of the Amulet utility library and
proves properties of the model:

- `unique_inverse`, the numpy-style encoder that splits an array into its
  distinct values in first-occurrence order plus an index array that
  rebuilds the input (`NumpyUtils`);
- the weak-pointer containers `WeakList` and `WeakSet` and their `for_each`
  sweep, which visits live entries in container order and erases expired
  ones (`Weak`);
- the `Signal` registry: `connect`, `disconnect`, `emit` with Direct and
  Async callbacks, and the destructor (`Signals`);
- the `OrderedMutex::unlock` bookkeeping of holders and the four counters,
  the compatibility relation of the four lock modes, and the immediate
  decision an `acquire` makes (`OrderedMutex`);
- the log-level filter: minimum level, `log`, and the five named levels
  (`Logging`);
- `CancelManager` / `VoidCancelManager` and `ProgressManager` /
  `VoidProgressManager` with child views (`CancelManagers`,
  `ProgressManagers`), over a shared token-keyed callback registry
  (`Callbacks`). `Wrappers` holds `Option`, `Result`, `Outcome` and
  `NoDuplicates`.

Modelling choices:

- Containers are sequences and values. A weak pointer is
  `WeakPtr(owner, target)`, where `target == None` means expired. A WeakSet
  is a sequence kept strictly ordered by owner identity, which stands for
  `owner_less`.
- A signal stores its callback storages in a heap keyed by storage
  identity. `alive` says a token still owns the storage.
- The order in which `emit` visits the WeakSet copy is a parameter, `order`.
  It may be any enumeration, because `owner_less` orders by address.
- Which callbacks throw is a parameter, `failing`.
- `emit` returns a trace: the Direct calls, the caught errors, the storages
  an async event was submitted for, and the shared argument tuple.
  Running a submitted event later is `RunAsyncEvent`.
- The mutex is a value holding the map from thread to held mode, the set of
  locking threads, and four unbounded integer counters. `Consistent` says
  each counter equals the number of holders it counts.
- Progress values are `real`. A progress view is the sub-range `[lo, hi]` of
  the root's range that the view's progress 0..1 covers. Every view of one
  manager shares one pair of callback registries.

## Model

| member | source | states |
|---|---|---|
| `NumpyUtils.UniqueInverse` | src/amulet/utils/numpy.hpp:13-38 | Size mismatch, non-empty `unique` and a too-small index type fail in that order and leave the containers untouched; otherwise it succeeds, `unique[inverse[i]] == arr[i]` for every i, `unique` is the first-occurrence dedup of `arr` with no duplicates and the same elements, a first occurrence gets the next free index, and every index is at most i and fits the index type |
| `NumpyUtils.Encode` | src/amulet/utils/numpy.hpp:25-37 | The loop with its value-to-index map: the result rebuilds `arr`, `unique` equals the reference dedup, and each first occurrence is given the count of distinct values before it |
| `NumpyUtils.DedupSameElements` | src/amulet/utils/numpy.hpp:28-37 | A value is in `unique` iff it is in `arr` |
| `NumpyUtils.DedupNoDuplicates` | src/amulet/utils/numpy.hpp:30-33 | `unique` never holds a value twice |
| `NumpyUtils.DedupNoLonger` | src/amulet/utils/numpy.hpp:30-33 | `unique` is no longer than `arr` |
| `NumpyUtils.DedupPrefix` | src/amulet/utils/numpy.hpp:31-33 | The dedup of a prefix of `arr` is a prefix of the dedup of `arr`: values are only ever appended |
| `NumpyUtils.DedupEveryEntryUsed` | src/amulet/utils/numpy.hpp:28-37 | Every entry of `unique` occurs somewhere in `arr` |
| `NumpyUtils.DedupFirstOccurrenceOrder` | src/amulet/utils/numpy.hpp:31-33 | If entry k of `unique` has appeared in a prefix of `arr`, so has every earlier entry |
| `Weak.ForEach` | src/amulet/utils/weak.hpp:10-23 | `f` is called on exactly the live targets, in container order; the container afterwards is the original filtered to live entries, order kept |
| `Weak.LiveEntriesFacts` | src/amulet/utils/weak.hpp:13-21 | The kept entries are exactly the live ones, as many as the visits, and the i-th kept entry holds the i-th visited value |
| `Weak.ForEachIdempotent` | src/amulet/utils/weak.hpp:13-23 | A second sweep with no new expiries removes nothing and visits the same values |
| `Weak.PushBack` | src/amulet/utils/weak.hpp:26-27 | A WeakList append keeps every earlier entry and adds the pointer at the end, even if it is already present |
| `Weak.PushBackVisitsLast` | src/amulet/utils/weak.hpp:10-33 | After a push_back, a sweep visits what it visited before and then the new pointer if it is live, and keeps it last |
| `Weak.LiveConcat` | src/amulet/utils/weak.hpp:13-21 | Sweeping a concatenation is sweeping each part in turn, for both the visits and the kept entries |
| `Weak.SweepPermutation` | src/amulet/utils/weak.hpp:13-21 | Containers holding the same entries, in any order, are visited the same objects the same number of times and keep the same entries |
| `Weak.Emplace` | src/amulet/utils/weak.hpp:35-36 | Emplacing into a WeakSet keeps it strictly ordered by owner and adds no owner below the inserted one |
| `Weak.EmplacePresent` | src/amulet/utils/weak.hpp:35-36 | Emplacing a pointer whose owner is stored leaves the set unchanged |
| `Weak.EmplaceAbsent` | src/amulet/utils/weak.hpp:35-36 | Emplacing a pointer with a new owner adds exactly that pointer |
| `Weak.EmplaceLargest` | src/amulet/utils/weak.hpp:35-36 | A pointer with an owner above all stored ones is appended at the end |
| `Weak.EmplaceNew` | src/amulet/utils/weak.hpp:35-36 | Emplacing a pointer whose owner is absent adds exactly that pointer to the set's contents |
| `Weak.EmplaceAllNew` | src/amulet/utils/weak.hpp:35-36 | Emplacing in turn pointers whose owners are pairwise distinct and new stores every one of them and nothing else |
| `Weak.ForEachKeepsWeakSet` | src/amulet/utils/weak.hpp:38-42 | Sweeping a WeakSet leaves a WeakSet |
| `Weak.WeakListScenario` | tests/test_amulet_utils/test_weak_.py.cpp:19-34 | For any owners, pushing a, b, c, d, d gives the list a, b, c, d, d, and a sweep visits 1, 2, 3, 4, 4 |
| `Weak.WeakListSweepScenario` | tests/test_amulet_utils/test_weak_.py.cpp:36-43 | With b and d expired, the sweep visits 1 and 3 and keeps exactly a and c |
| `Weak.WeakSetScenario` | tests/test_amulet_utils/test_weak_.py.cpp:53-73 | For any four distinct owners, emplacing four pointers and the last once more gives a WeakSet of exactly those four entries; the two pointers holding 3 are both kept, and a sweep visits 1, 2, 3, 3 counted with multiplicity |
| `Weak.WeakSetVisitScenario` | tests/test_amulet_utils/test_weak_.py.cpp:61-73 | With the owners in increasing order, the sweep visits 1, 2, 3, 3 in that order and keeps all four entries |
| `Weak.WeakSetVisitAnyOrder` | tests/test_amulet_utils/test_weak_.py.cpp:61-73 | In whatever order the set holds the four entries, the sweep visits 1 once, 2 once and 3 twice, and keeps all four |
| `Weak.ReleasedSweep` | tests/test_amulet_utils/test_weak_.py.cpp:75-87 | With owners in increasing order and the pointers holding 2 and the first 3 released, the sweep visits 1 then 3 and keeps those two entries |
| `Weak.WeakSetSweepScenario` | tests/test_amulet_utils/test_weak_.py.cpp:75-87 | For a WeakSet of those entries in any owner order, with the pointers holding 2 and the first 3 expired, the sweep visits 1 and 3 once each and keeps exactly the other two, still a WeakSet |
| `Signals.NewSignal` | src/amulet/utils/signal/signal.hpp:83 | A new signal has no callbacks and satisfies the registry invariant |
| `Signals.Connect` | src/amulet/utils/signal/signal.hpp:91-97 | A fresh storage with the given mode, not disconnected and owned by the returned token, is added to the WeakSet; the invariant is kept |
| `Signals.Disconnect` | src/amulet/utils/signal/signal.hpp:102-111 | An empty token changes nothing; otherwise the storage is marked disconnected and erased from the WeakSet, and every other storage is unchanged |
| `Signals.DropToken` | src/amulet/utils/signal/signal.hpp:48-65 | Destroying the last token without disconnecting expires its storage and changes nothing else |
| `Signals.ApplyChanges` | src/amulet/utils/signal/signal.hpp:90-111 | What a callback does to its signal while it runs (`connect`, `disconnect`, dropping a token) keeps the registry invariant, only adds storages, never changes a mode, and never undoes a disconnect or an expiry |
| `Signals.StateAfter` | src/amulet/utils/signal/signal.hpp:131-180 | The signal after the loop has visited a sequence of entries, each called callback making its changes, keeps the invariant and only evolves the one it started from |
| `Signals.StateAfterSplit` | src/amulet/utils/signal/signal.hpp:131-180 | Visiting the first k entries and then the rest is visiting all of them |
| `Signals.StateAfterInert` | src/amulet/utils/signal/signal.hpp:131-180 | When no visited callback changes anything, the loop leaves the signal as it found it |
| `Signals.SweepCallbacks` | src/amulet/utils/signal/signal.hpp:128-180 | Every Direct call of the loop passes the emitted arguments; the shared tuple exists after the loop iff it existed before or some Async entry was submitted, and it holds the emitted arguments |
| `Signals.SweepStep` | src/amulet/utils/signal/signal.hpp:131-180 | Visiting the first entry adds exactly one of: a recorded expired entry, a skipped disconnected Direct entry, a call (logged iff it throws), or a submitted event creating the tuple if needed; the rest of the loop runs on the signal that visit left |
| `Signals.SweepWithin` | src/amulet/utils/signal/signal.hpp:131-180 | The loop only calls, submits and records entries of its iteration, and logs exactly the calls whose callback throws |
| `Signals.SweepCallsAtVisit` | src/amulet/utils/signal/signal.hpp:132-153 | Over an iteration without repeats, the k-th entry is called iff it is live, Direct and not disconnected on the signal as the earlier callbacks left it |
| `Signals.SweepSubmittedAtVisit` | src/amulet/utils/signal/signal.hpp:132-160 | The k-th entry gets an async event iff it is live and Async on the signal as the earlier callbacks left it |
| `Signals.SweepDeadAtVisit` | src/amulet/utils/signal/signal.hpp:132-139 | The k-th entry is recorded for pruning iff its storage has expired by the time the loop reaches it |
| `Signals.SweepNoDuplicates` | src/amulet/utils/signal/signal.hpp:131-180 | Over an iteration without repeats, no storage is called twice and no event is submitted twice for one storage |
| `Signals.Emit` | src/amulet/utils/signal/signal.hpp:116-190 | Over the copy taken under the lock, each entry is judged when the loop reaches it: called once with the arguments iff live, Direct and connected then; throwing callbacks are logged; one event per entry live and Async then, all sharing one tuple; the callbacks' changes are kept and the entries found expired are erased from the WeakSet as it is after the loop |
| `Signals.EmitCallsOnlyConnected` | src/amulet/utils/signal/signal.hpp:121-153 | Emit calls only callbacks that were in the copy and connected when it started, and calls every one of them still live, Direct and connected when it ends |
| `Signals.EmitInert` | src/amulet/utils/signal/signal.hpp:116-190 | When the callbacks change nothing, emit calls exactly the live connected Direct callbacks, defers exactly the live Async ones, and its only change is to drop the expired entries |
| `Signals.RunAsyncEvent` | src/amulet/utils/signal/signal.hpp:160-177 | A submitted event calls its callback with the shared tuple iff the storage is still live and not disconnected when it runs |
| `Signals.Destroy` | src/amulet/utils/signal/signal.hpp:193-203 | The destructor marks every live storage of the WeakSet disconnected and leaves other storages alone |
| `Signals.ConnectThenEmit` | tests/test_amulet_utils/test_signal.py:43-69 | A callback connected Direct is called by the next emit, is not deferred, and no call is repeated |
| `Signals.ConnectAsyncThenEmit` | tests/test_amulet_utils/test_signal.py:134-145 | A callback connected Async is not called during the emit; its event is submitted with the arguments and calls it when run |
| `Signals.DisconnectSilences` | tests/test_amulet_utils/test_signal.py:71-85 | After disconnect, emit neither calls nor defers the callback, whatever the callbacks do, and an event already submitted does nothing |
| `Signals.DisconnectDuringEmit` | src/amulet/utils/signal/signal.hpp:141-147 | A callback that disconnects a later entry of the same emit keeps it from being called, and that entry ends disconnected and out of the WeakSet |
| `Signals.DropDuringEmit` | src/amulet/utils/signal/signal.hpp:132-139 | A callback that drops the last token of a later entry keeps it from being called, and that emit prunes it |
| `Signals.ConnectDuringEmit` | src/amulet/utils/signal/signal.hpp:121-131 | A callback connected by a callback during emit joins the WeakSet but is not called by that emit, which iterates over its copy |
| `Signals.DestroySilencesEvents` | src/amulet/utils/signal/signal.hpp:193-203 | After the signal is destroyed, a pending event of one of its callbacks does nothing |
| `Signals.DroppedTokenSilencesEvents` | src/amulet/utils/signal/signal.hpp:160-164 | A pending event whose token has been destroyed does nothing |
| `Signals.SweepIgnoresFailures` | src/amulet/utils/signal/signal.hpp:147-153 | Which callbacks throw does not change what the loop calls, defers or prunes, nor the signal it leaves |
| `Signals.EmitIgnoresFailures` | src/amulet/utils/signal/signal.hpp:147-153 | A throwing callback changes neither the calls of an emit nor the registry after it |
| `Signals.EmitPruneIdempotent` | src/amulet/utils/signal/signal.hpp:182-189 | With callbacks that change nothing and no token destroyed in between, a second emit prunes nothing and calls the same callbacks |
| `OrderedMutex.NewMutex` | src/amulet/utils/mutex.cpp:6 | A new mutex has no entries and satisfies the counter invariant |
| `OrderedMutex.Unlock` | src/amulet/utils/mutex.cpp:9-51 | Fails with the runtime error iff the caller has no entry or no held state; otherwise each counter the caller's mode is counted in drops by one and the others stay, only the caller's entries are erased, and the counter invariant is kept |
| `OrderedMutex.HoldersRemove` | src/amulet/utils/mutex.cpp:45-47 | Erasing a holder removes it from exactly the holder counts its mode belongs to |
| `OrderedMutex.CompatibleMatchesTests` | tests/test_amulet_utils/test_lock.py:673-699 | The compatibility relation holds for exactly the mode pairs the parallel test runs together, over all sixteen pairs |
| `OrderedMutex.CompatibleSymmetric` | tests/test_amulet_utils/test_lock.py:673-699 | Compatibility is symmetric |
| `OrderedMutex.CompatibleNotTransitive` | tests/test_amulet_utils/test_lock.py:673-699 | SharedReadOnly–SharedRead and SharedRead–SharedReadWrite are compatible while SharedReadOnly–SharedReadWrite is not |
| `OrderedMutex.UniqueExcludesAll` | tests/test_amulet_utils/test_lock.py:673-699 | Unique runs in parallel with no mode, itself included, on either side |
| `OrderedMutex.CountersDecideCompatibility` | src/amulet/utils/mutex.cpp:25-43 | Under the counter invariant, a new claim is compatible with every holder iff the four counters admit it |
| `OrderedMutex.Acquire` | tests/test_amulet_utils/test_lock.py:673-722 | Re-entry is a deadlock; a claim is granted at once iff the counters admit it and nobody waits, and then each counter its mode is counted in rises by one; otherwise non-blocking fails and blocking waits; the invariant is kept |
| `OrderedMutex.GrantedIsCompatible` | tests/test_amulet_utils/test_lock.py:673-699 | A claim granted at once is compatible with every current holder |
| `OrderedMutex.AcquireKeepsHoldersCompatible` | tests/test_amulet_utils/test_lock.py:673-699 | Acquiring keeps every two holders compatible |
| `OrderedMutex.UnlockKeepsHoldersCompatible` | src/amulet/utils/mutex.cpp:45-47 | Unlocking keeps every two holders compatible |
| `OrderedMutex.AcquireUnlockRoundTrip` | src/amulet/utils/mutex.cpp:25-47 | Unlocking a just-granted claim restores the exact state it was taken from |
| `OrderedMutex.FreshLockGrants` | tests/test_amulet_utils/test_lock.py:472-475 | A fresh lock grants a non-blocking acquire in any mode, and releasing returns it to the fresh state |
| `OrderedMutex.ReacquireDeadlocks` | tests/test_amulet_utils/test_lock.py:508-552 | A thread holding the lock gets Deadlock on re-acquiring, for every mode and blocking flag |
| `OrderedMutex.SecondAcquireMatchesTests` | tests/test_amulet_utils/test_lock.py:673-722 | With one thread holding a fresh lock, a second thread is granted at once exactly for the parallel pairs; for the others a non-blocking call fails and a blocking one waits |
| `Logging.InitialLogger` | src/amulet/utils/logging/logging.cpp:9-13 | The minimum level starts at 20 and nothing is logged |
| `Logging.GetMinLogLevel` | src/amulet/utils/logging/logging.cpp:9-13 | Returns the current static minimum level, the threshold `log` filters at: a record is emitted iff its level is at least the value returned. The start value 20 is pinned by `InitialLogger` and the set-then-get round trip by `SetThenGet` |
| `Logging.SetMinLogLevel` | src/amulet/utils/logging/logging.cpp:15-18 | Setting the level logs nothing, and reading it back returns the level set |
| `Logging.Log` | src/amulet/utils/logging/logging.cpp:29-35 | The record is emitted iff the minimum level is at most its level; otherwise nothing changes; the level is kept |
| `Logging.Debug` | src/amulet/utils/logging/logging.cpp:37-41 | Logs at level 10 |
| `Logging.Info` | src/amulet/utils/logging/logging.cpp:43-47 | Logs at level 20 |
| `Logging.Warning` | src/amulet/utils/logging/logging.cpp:49-53 | Logs at level 30 |
| `Logging.Error` | src/amulet/utils/logging/logging.cpp:55-59 | Logs at level 40 |
| `Logging.Critical` | src/amulet/utils/logging/logging.cpp:61-65 | Logs at level 50 |
| `Logging.SetThenGet` | tests/test_amulet_utils/test_logging.py:36-40 | `get_min_log_level` returns what `set_min_log_level` set |
| `Logging.DefaultFilter` | src/amulet/utils/logging/logging.cpp:9-13 | At the default level a DEBUG message is dropped and an INFO message is emitted |
| `Logging.LogAllFilters` | src/amulet/utils/logging/logging.cpp:29-35 | A run of log calls emits exactly the calls at or above the minimum level, in call order |
| `Logging.PassingMembers` | src/amulet/utils/logging/logging.cpp:32 | A record is emitted iff it was logged and its level reaches the minimum |
| `Logging.PassingMonotone` | src/amulet/utils/logging/logging.cpp:32 | Filtering at a lower and then a higher threshold is filtering at the higher one |
| `Logging.NamedCallsLogged` | tests/test_amulet_utils/test_logging_.py.cpp:10-14 | The five named helpers in the test's order are `log` applied to the five named records in that order |
| `Logging.LoopCallsStep` | tests/test_amulet_utils/test_logging_.py.cpp:16-18 | One more turn of the loop logs `to_string(5k)` at level 5k after everything before it |
| `Logging.LoggingTests` | tests/test_amulet_utils/test_logging_.py.cpp:9-19 | The test body logs the five named messages and then `log(i, to_string(i))` for i = 0, 5, …, 55, in that order |
| `Logging.LoopPassingAtTen` | tests/test_amulet_utils/test_logging.py:25 | At threshold 10 the loop's calls at 0 and 5 are dropped and those at 10 to 55 pass |
| `Logging.NamedPassAtTen` | tests/test_amulet_utils/test_logging.py:18-28 | At threshold 10 every named call passes |
| `Logging.TestRunAtLevelTen` | tests/test_amulet_utils/test_logging.py:18-28 | At threshold 10 the test run emits exactly the expected list, in call order |
| `Callbacks.Add` | tests/test_amulet_utils/test_task_manager.py:55 | Registering appends the callback under a token no registration has |
| `Callbacks.Remove` | tests/test_amulet_utils/test_task_manager.py:68-73 | Unregistering keeps exactly the registrations with other tokens |
| `Callbacks.AddThenRemove` | tests/test_amulet_utils/test_task_manager.py:70-71 | Unregistering by the token just issued restores the registrations |
| `CancelManagers.NewCancelManager` | tests/test_amulet_utils/test_task_manager.py:47-49 | A new manager is not cancelled and has no callbacks |
| `CancelManagers.IsCancelRequested` | tests/test_amulet_utils/test_task_manager.py:47-53 | True iff the manager is active and its cancelled flag is set; the void manager never reports a request. `Cancel` sets the flag iff the manager is active, and `CancelFlagScenario` and `VoidScenario` give the tests' observations (lines 47-53 and 82-86) |
| `CancelManagers.RegisterCancelCallback` | tests/test_amulet_utils/test_task_manager.py:55 | Registering stores the callback under a fresh token, cancelled or not; the void manager stores nothing |
| `CancelManagers.UnregisterCancelCallback` | tests/test_amulet_utils/test_task_manager.py:68-73 | Unregistering removes that token's registration and leaves the flag alone; the void manager is unchanged |
| `CancelManagers.Cancel` | tests/test_amulet_utils/test_task_manager.py:47-66 | Afterwards the flag is set iff the manager is active; the first call runs every registered callback once in registration order, and later calls and the void manager do nothing |
| `CancelManagers.CancelledRunsNothing` | tests/test_amulet_utils/test_task_manager.py:55-58 | Once cancelled, no sequence of calls runs a callback, and the flag stays set |
| `CancelManagers.EachCallbackRunsAtMostOnce` | tests/test_amulet_utils/test_task_manager.py:60-66 | For any sequence of calls, no registration is run twice |
| `CancelManagers.VoidRunsNothing` | tests/test_amulet_utils/test_task_manager.py:75-106 | The void manager stays void and runs nothing, whatever the calls |
| `CancelManagers.CancelFlagScenario` | tests/test_amulet_utils/test_task_manager.py:47-53 | Not cancelled at first, cancelled after one and after two `cancel()` calls |
| `CancelManagers.RegisterAfterCancelScenario` | tests/test_amulet_utils/test_task_manager.py:55-58 | A callback registered after cancellation is not run by a later `cancel()` |
| `CancelManagers.RegisterBeforeCancelScenario` | tests/test_amulet_utils/test_task_manager.py:60-66 | A callback registered before the first `cancel()` runs once; a second `cancel()` runs nothing |
| `CancelManagers.UnregisterBeforeCancelScenario` | tests/test_amulet_utils/test_task_manager.py:68-73 | A callback unregistered before `cancel()` is not run |
| `CancelManagers.VoidScenario` | tests/test_amulet_utils/test_task_manager.py:82-106 | The void manager never reports cancellation and never runs a callback |
| `ProgressManagers.NewProgressManager` | tests/test_amulet_utils/test_task_manager.py:126 | A new manager has empty registries and covers the whole range |
| `ProgressManagers.RootRescale` | tests/test_amulet_utils/test_task_manager.py:129-130 | On the root, progress is delivered unchanged |
| `ProgressManagers.GetChild` | tests/test_amulet_utils/test_task_manager.py:140-146 | A child's progress p is reported as the parent's progress `lo + p·(hi − lo)`; a child of the void manager is void |
| `ProgressManagers.ChildInRange` | tests/test_amulet_utils/test_task_manager.py:140 | A child with `0 ≤ lo ≤ hi ≤ 1` of a view inside `[0, 1]` lies inside its parent's range |
| `ProgressManagers.ChildOfChild` | tests/test_amulet_utils/test_task_manager.py:140 | A child of a child is the child of the composed sub-range |
| `ProgressManagers.RegisterProgressCallback` | tests/test_amulet_utils/test_task_manager.py:127 | Appends the callback under a fresh token; the void manager stores nothing |
| `ProgressManagers.RegisterTextCallback` | tests/test_amulet_utils/test_task_manager.py:128 | Appends the text callback under a fresh token; the void manager stores nothing |
| `ProgressManagers.UnregisterProgressCallback` | tests/test_amulet_utils/test_task_manager.py:133 | Removes exactly that token's progress registration |
| `ProgressManagers.UnregisterTextCallback` | tests/test_amulet_utils/test_task_manager.py:134 | Removes exactly that token's text registration |
| `ProgressManagers.UpdateProgress` | tests/test_amulet_utils/test_task_manager.py:129-130 | Every registered progress callback, in order, receives the value rescaled into the root's range; the void manager delivers nothing |
| `ProgressManagers.UpdateProgressText` | tests/test_amulet_utils/test_task_manager.py:131-132 | Every registered text callback, in order, receives the text unchanged; the void manager delivers nothing |
| `ProgressManagers.ChildForwards` | tests/test_amulet_utils/test_task_manager.py:140-146 | A child's update delivers what the parent's update of the rescaled value would; its text is forwarded unchanged |
| `ProgressManagers.RegisterThenUnregister` | tests/test_amulet_utils/test_task_manager.py:133-138 | After unregistering, updates deliver what they delivered before the registration |
| `ProgressManagers.ProgressScenario` | tests/test_amulet_utils/test_task_manager.py:114-148 | Updates reach the callbacks, stop after unregister, and a `(0.5, 1.0)` child's 0.5 is observed as 0.75 with its text unchanged |
| `ProgressManagers.VoidProgressScenario` | tests/test_amulet_utils/test_task_manager.py:150-184 | The void manager and its child deliver nothing: the observers keep 0.0 and "" |
| `ProgressManagers.DroppedRootScenario` | tests/test_amulet_utils/test_task_manager.py:186-215 | After the root handle is dropped, a `(0.0, 0.5)` child's 0.5 is observed as 0.25 with its text, and unregistering through the child silences both |

## Left out

- The event loop of src/amulet/utils/signal/signal.cpp (a background thread, a condition variable, an exit hook) is not modelled. `submit_async` is modelled only as the list of submitted events; when an event runs is not modelled.
- The tracing `AmuletLog(5, …)` calls inside `emit`, and the text of the error-level log line for a throwing callback, are left out. Only which calls threw is recorded.
- Signals.Emit: what a Direct callback does to its own signal is the parameter `effects`, a fixed list of `connect`, `disconnect` and token drops per storage. Other calls a callback makes, and changes other threads make during the loop, are not modelled.
- Signals.Emit: async events run after the loop in the model. The event thread running them while the loop is still going is concurrency and is not modelled; `RunAsyncEvent` judges an event on whatever signal it is given.
- Weak.ForEach: `f` is modelled without effects. A visitor that releases the last owner of a later entry, or edits the container, is not modelled; the sweep judges each entry on the container as it was when the sweep began.
- Exceptions thrown by async callbacks are left out. They are caught inside the event, and running an event is only modelled up to the call.
- The mutexes inside `Signal`, `SignalCallbackStorage` and `OrderedMutex` exist for thread safety, not behaviour, and are left out. So are `notify_all` and the waking of waiters.
- The acquire side of `OrderedMutex` (mutex.hpp) is not part of this model. `Acquire` models only the immediate decision the lock tests pin down: deadlock on re-entry, grant, fail, or wait. The rule that a claim is granted at once only when nobody waits is an assumption, since mutex.hpp is not part of this model.
- The batch queue, blocking with a timeout, cancellation polling while waiting, and all timing assertions are real-thread scheduling and are left out. For the same reason `Acquire` takes no timeout.
- OrderedMutex.Unlock: the counters are unbounded integers. The source's counter type lives in mutex.hpp and is not part of this model. In a state satisfying the invariant a decrement never goes below zero, so no wrap-around can arise.
- `lock_file.hpp` and its tests are left out. They are a thin wrapper over OS file handles.
- `SharedLock`, `Lock` and `RLock` are left out. They wrap `std::shared_mutex` and the Python primitives.
- Object-lifetime and weakref tests are left out. They exercise reference counting and garbage collection.
- Console output in logging.cpp (`std::cout` tracing, the default log handler, its registration and unregistration) is I/O and is left out. `log` is modelled up to the `emit` on the logger signal.
- The names declared in logging.hpp do not all match logging.cpp. The model follows logging.cpp.
- `unique_inverse` compares values with `==`, as `std::unordered_map` does for integers. Floating-point NaN keys, which never compare equal, are not modelled.
- The index type's width is the parameter `inverseMax`. The cast `static_cast<inverseT>` is exact once the size check has passed, so it is not modelled separately.
- The implementations of `CancelManager` and `ProgressManager` are not shown among the source files. Their model follows the Python tests in tests/test_amulet_utils/test_task_manager.py.
- CancelManagers.Cancel: the order in which `cancel()` runs callbacks is not pinned by any test. The model runs them in registration order.
- ProgressManagers.UpdateProgress: the order in which `update_progress` calls its callbacks is not pinned by any test, which never registers more than one at a time. The model calls them in registration order.
- ProgressManagers.UpdateProgressText: the order in which `update_progress_text` calls its callbacks is not pinned by any test either. The model calls them in registration order.
- Progress views share one pair of registries with the manager they came from. tests/test_amulet_utils/test_task_manager.py:139-146 registers on the root and updates through the child, and lines 186-215 unregister root tokens through a child after the root handle is gone, so every view of one manager reaches the same pair of registries.
- The progress and text values each manager stores for later queries are not covered by the tests, and only the callback deliveries are modelled.
- Progress is modelled over `real`; `float` rounding is not modelled.
- The `TaskCancelled` exception and its message strings are exception plumbing and are left out.
- pybind11 glue and the build and test harness are left out.
