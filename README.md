# PidPool state machine in Dafny

This project models the sequential core of `PidPool`, an object pool whose capacity
is re-derived from demand. The pool's state is a FIFO deque of idle objects, a
capacity `maxSize`, and two counters: `inUse` (objects believed checked out) and
`inUseSkip` (gives whose later reclamation event must be ignored). A flag records
whether the scheduled control task has stopped. Each public operation is one
atomic step, although `take`, `give` and the control task each pass through two
critical sections (the queue's lock and `inUseLock`). The interleavings between
those sections are not modelled:

- `take`: poll the oldest idle object, or call `create()` when the deque is empty.
  Then `inUse` goes up by one.
- `give`: append the object while the deque is below `maxSize`, otherwise destroy it.
  In both branches `inUse` goes down by one and `inUseSkip` up by one.
- `State.setMaxSize(n)`: set the capacity, poll `size - n` objects from the front
  when that is positive, then destroy them in order. A negative `n` throws before
  polling; see below.
- one run of the control task: sample `inUse`, then `setMaxSize` to it.
- one pass of the reclamation loop: consume one pending skip, or else decrement `inUse`.
- the teardown drain: poll and destroy until the deque is empty.

Three modules hold the model:

- `PoolModel` (`pool_model.dfy`) is the value level. `PoolState` is a snapshot of the
  state plus ghost logs of lifecycle calls: `created`, `dequeued` (onDequeue calls)
  and `destroyed` (destroy calls). In `destroyed`, `None` would be a call with
  `null`; no step makes one, since every poll the pool makes is of a non-empty
  deque. `stopped` records whether the control task has stopped. There is one
  function per public operation, and `Op`/`Run` replay any sequence of them. The
  lemmas prove the invariant holds in every reachable state, that objects in the
  pool's custody are conserved, the counter and live-object accounting, the
  trimming rules and the stopped control task.
- `Pool` (`pool.dfy`) mirrors the Java classes. `State` has the deque as a
  `seq<T>` field, plus `maxSize`, `inUse`, `inUseSkip` and the ghost logs.
  `PidPool` holds a `State` and the control task's status, and runs each
  operation against them in place. The teardown drain works on the `State`
  directly, as the cleanup action does. The poll loop of `setMaxSize` and the
  teardown drain are `while` loops; the destroy loop
  is a `for` loop. Each state-changing method states its effect field by field.
  It also ties its new state to the matching `PoolModel` step, so the value-level
  lemmas carry over to the objects.
- `PoolScenarios` (`scenarios.dfy`) holds concrete runs: creation order, reuse
  without re-creation, overflow, the control task trimming to demand, the control
  task stopping on a negative sample, and the reuse leak described below.

`create()` is a parameter of `Take` (`made`): it is the value `create()` returns
if the pool calls it. `destroy` and `onDequeue` append to ghost logs. The runtime's
reclamation of an object is the externally triggered `ReclaimEvent`.

Where the code and its design description differ, the model follows the code:

- The code tracks in-use objects with two counters, not a weak set, so there is no
  notion of which objects are in use.
- `give` never calls `onEnqueue`.
- The capacity can become negative, and the control task then stops for good. The
  task passes `inUse` to `setMaxSize` unchecked, and `inUse` goes negative when
  `give` is called more often than `take`. `setMaxSize` stores the negative limit,
  and then allocates the list of doomed objects with that limit as its capacity.
  `new ArrayList<>(-1)` throws, so nothing is polled or destroyed
  (`ResizeNegative`). The exception leaves the task, and a fixed-rate executor
  suppresses every later run of a task that threw. From then on the limit stays
  negative, every `give` destroys its object, and idle objects may stay queued over
  the limit (`StoppedTaskIsStuck`, `NegativeSampleStopsControlTask`). The invariant
  proved therefore reads: `|queue| <= maxSize` while the task runs, and
  `maxSize < 0` once it has stopped.
- Reclamation events come only for objects `take` created, yet every `give` leaves
  a skip. An object that is given back, queued, taken again and then leaked is
  never counted down: its one reclamation event consumes the skip of its earlier
  give, and `inUse` stays at 1 (`ReusedLeakStaysCounted`).

## Model

| member | source | states |
|---|---|---|
| `PoolModel.Init` | src/main/java/com/github/wilgaboury/pidpool/PidPool.java:27-34 | the fresh state has an empty deque and a running control task, and satisfies the invariant |
| `PoolModel.TakeStep` | src/main/java/com/github/wilgaboury/pidpool/PidPool.java:75-94 | a non-empty queue hands out its head (the returned object followed by the new queue is the old queue) and logs onDequeue; an empty one hands out the created object; exactly one of create/onDequeue is logged; `inUse + 1`; limit and destroy log untouched |
| `PoolModel.GiveStep` | src/main/java/com/github/wilgaboury/pidpool/PidPool.java:97-112 | the object is appended exactly when the queue is below the limit, and destroyed exactly otherwise; `inUse - 1`, while `inUse + inUseSkip` is unchanged |
| `PoolModel.Resize` | src/main/java/com/github/wilgaboury/pidpool/PidPool.java:36-54 | `setMaxSize(n)`: the limit becomes `n`; the queue never grows, and the destroy log grows by exactly the objects it loses; counters and other logs untouched |
| `PoolModel.TickStep` | src/main/java/com/github/wilgaboury/pidpool/PidPool.java:143-151 | one run of the control task: the task is stopped afterwards exactly when it was stopped or the sample is negative; a running task sets the limit to the sample; a stopped task changes nothing; counters untouched |
| `PoolModel.ReclaimStep` | src/main/java/com/github/wilgaboury/pidpool/PidPool.java:157-164 | one reclamation event lowers `inUse + inUseSkip` by one, taking it from the skip when one is pending and from `inUse` otherwise; queue, limit and destroy log untouched |
| `PoolModel.DrainStep` | src/main/java/com/github/wilgaboury/pidpool/PidPool.java:136-139 | the drain leaves the queue empty and appends one destroy call per idle object; limit and counters untouched |
| `PoolModel.Polled` | src/main/java/com/github/wilgaboury/pidpool/PidPool.java:44-46 | `k` polls yield exactly `k` entries: the deque's elements front to back, then null once it is empty |
| `PoolModel.PolledSnoc` | src/main/java/com/github/wilgaboury/pidpool/PidPool.java:44-46 | one more poll appends the next element, or null past the end |
| `PoolModel.ObjectsOfPolled` | src/main/java/com/github/wilgaboury/pidpool/PidPool.java:44-46 | the non-null results of `k` polls are exactly the oldest `min(k, size)` elements, in order |
| `PoolModel.ResizeThrows` | src/main/java/com/github/wilgaboury/pidpool/PidPool.java:40-43 | `setMaxSize(n)` throws exactly when `n` is negative: then `size - n > 0`, and the list is allocated with the negative limit as its capacity |
| `PoolModel.ResizeBounds` | src/main/java/com/github/wilgaboury/pidpool/PidPool.java:36-47 | after `setMaxSize(n)` the limit is `n`, and for any `n >= 0` the queue fits it |
| `PoolModel.ResizeTrimsOldest` | src/main/java/com/github/wilgaboury/pidpool/PidPool.java:36-54 | for `n >= 0`: `maxSize = n`; a longer queue loses exactly its `size - n` oldest objects, which are destroyed in queue order, and keeps its newest `n`; otherwise the queue is unchanged and nothing is destroyed; the counters and the other logs are untouched |
| `PoolModel.ResizeNegative` | src/main/java/com/github/wilgaboury/pidpool/PidPool.java:40-43 | for `n < 0`: setMaxSize throws, and only `maxSize` has changed; the queue is untouched and nothing is destroyed |
| `PoolModel.ResizeMovesPrefix` | src/main/java/com/github/wilgaboury/pidpool/PidPool.java:36-54 | every resize moves a prefix of the queue, oldest first, into the destroyed log; the rest stays queued |
| `PoolModel.TickTracksDemand` | src/main/java/com/github/wilgaboury/pidpool/PidPool.java:143-151 | a non-negative sample becomes the limit and the queue fits it; a negative sample becomes the limit, the queue and destroyed log are untouched and the task stops; a stopped task changes nothing; the counters are never touched |
| `PoolModel.StoppedTaskIsStuck` | src/main/java/com/github/wilgaboury/pidpool/PidPool.java:40-43 | once the control task has stopped, it stays stopped with the same negative limit; the queue never grows and only loses objects from its front |
| `PoolModel.DrainDestroysQueue` | src/main/java/com/github/wilgaboury/pidpool/PidPool.java:136-139 | the drain leaves the queue empty and destroys exactly the queued objects, front to back, with no null destroy |
| `PoolModel.StepKeepsInvariant` | src/main/java/com/github/wilgaboury/pidpool/PidPool.java:99-100 | every atomic step keeps `size <= maxSize` while the control task runs, `maxSize < 0` once it has stopped, and `inUseSkip >= 0` |
| `PoolModel.RunKeepsInvariant` | src/main/java/com/github/wilgaboury/pidpool/PidPool.java:99-100 | any sequence of steps keeps that invariant |
| `PoolModel.Reachable` | src/main/java/com/github/wilgaboury/pidpool/PidPool.java:27-34 | every state reachable from a fresh pool satisfies the invariant |
| `PoolModel.StepKeepsLiveCount` | src/main/java/com/github/wilgaboury/pidpool/PidPool.java:75-113 | every step except a reclamation event keeps the objects created and not destroyed equal to the idle ones plus the in-use count |
| `PoolModel.RunKeepsLiveCount` | src/main/java/com/github/wilgaboury/pidpool/PidPool.java:75-113 | the same over any run without reclamation events |
| `PoolModel.LiveWithinLimitPlusDemand` | src/main/java/com/github/wilgaboury/pidpool/PidPool.java:27-34 | from a fresh pool, until the first reclamation event: live objects equal the idle ones plus `inUse`, and while the control task runs they are at most `maxSize + inUse` |
| `PoolModel.ResizeCustody` | src/main/java/com/github/wilgaboury/pidpool/PidPool.java:36-54 | `setMaxSize` moves trimmed objects from the queue to the destroyed log; none is lost or duplicated |
| `PoolModel.StepCustody` | src/main/java/com/github/wilgaboury/pidpool/PidPool.java:75-113 | one step changes the multiset of queued, re-handed-out and destroyed objects by exactly the object given in that step |
| `PoolModel.RunCustody` | src/main/java/com/github/wilgaboury/pidpool/PidPool.java:75-113 | over any run, queued + re-handed-out + destroyed objects grow by exactly the multiset of objects given back |
| `PoolModel.RunAccounting` | src/main/java/com/github/wilgaboury/pidpool/PidPool.java:91-108 | over any run, `inUse + inUseSkip` changes by takes minus reclamation events; `inUse` lies between takes − gives − reclamations and takes − gives; each take either reuses or creates exactly one object |
| `PoolModel.NoTickNoReuse` | src/main/java/com/github/wilgaboury/pidpool/PidPool.java:97-112 | while no tick runs and the limit is at most 0, the queue stays empty, the limit is unchanged, nothing is reused and every take creates |
| `PoolModel.NoTickDestroysGiven` | src/main/java/com/github/wilgaboury/pidpool/PidPool.java:97-112 | while no tick runs and the limit is at most 0, the objects destroyed are exactly the objects given back, in order |
| `PoolModel.FreshPoolDestroysEveryGive` | src/main/java/com/github/wilgaboury/pidpool/PidPool.java:27-34 | from a fresh pool, every object given back before the first tick is destroyed |
| `Pool.State.constructor` | src/main/java/com/github/wilgaboury/pidpool/PidPool.java:27-34 | fresh state: empty queue, `maxSize = 0`, `inUse = inUseSkip = 0`, empty logs |
| `Pool.State.Poll` | src/main/java/com/github/wilgaboury/pidpool/PidPool.java:79-81 | removes and returns the head; null and no change on an empty deque |
| `Pool.State.Destroy` | src/main/java/com/github/wilgaboury/pidpool/PidPool.java:52 | appends its argument to the destroyed log |
| `Pool.State.PollMany` | src/main/java/com/github/wilgaboury/pidpool/PidPool.java:44-46 | the poll loop returns `Polled(queue, count)` and leaves the queue without its first `min(count, size)` elements |
| `Pool.State.DestroyAll` | src/main/java/com/github/wilgaboury/pidpool/PidPool.java:50-54 | destroys the polled objects in order |
| `Pool.State.Drain` | src/main/java/com/github/wilgaboury/pidpool/PidPool.java:136-139 | the cleanup loop ends with an empty queue and the state `DrainStep` describes; only the queue and the destroy log change |
| `Pool.State.SetMaxSize` | src/main/java/com/github/wilgaboury/pidpool/PidPool.java:36-55 | `maxSize = n`; it throws exactly when `n < 0`, and then the queue and the destroyed log are untouched; for `n >= 0` and a longer queue the oldest `size - n` are polled and destroyed in order, leaving the newest `n`; a queue within the limit is unchanged and nothing is destroyed; counters untouched |
| `Pool.PidPool.constructor` | src/main/java/com/github/wilgaboury/pidpool/PidPool.java:61-73 | a new pool starts in the fresh state |
| `Pool.PidPool.Take` | src/main/java/com/github/wilgaboury/pidpool/PidPool.java:75-95 | non-empty queue: returns and removes the head, records onDequeue, creates nothing; empty queue: returns the created object, queue unchanged; `inUse + 1`, `maxSize` and `inUseSkip` unchanged |
| `Pool.PidPool.Give` | src/main/java/com/github/wilgaboury/pidpool/PidPool.java:97-113 | below the limit the object is appended and not destroyed, otherwise the queue is unchanged and the object destroyed; in both branches `inUse - 1`, `inUseSkip + 1`, `maxSize` unchanged |
| `Pool.PidPool.GetInUse` | src/main/java/com/github/wilgaboury/pidpool/PidPool.java:115-119 | returns `inUse` and changes nothing |
| `Pool.PidPool.GetMaxSize` | src/main/java/com/github/wilgaboury/pidpool/PidPool.java:121-125 | returns `maxSize` and changes nothing |
| `Pool.PidPool.ControlTick` | src/main/java/com/github/wilgaboury/pidpool/PidPool.java:143-151 | a running task sets `maxSize` to the sampled `inUse`; a non-negative sample leaves the queue within it; a negative one leaves the queue and destroyed log untouched and stops the task; a stopped task changes nothing; keeps the invariant |
| `Pool.PidPool.ReclaimEvent` | src/main/java/com/github/wilgaboury/pidpool/PidPool.java:157-164 | with a pending skip, `inUseSkip - 1` and `inUse` unchanged; otherwise `inUse - 1` and `inUseSkip` unchanged; queue and limit untouched |
| `PoolScenarios.TakesOnEmptyPoolCreateInOrder` | src/main/java/com/github/wilgaboury/pidpool/PidPool.java:75-95 | three takes on an empty pool hand out the created objects in creation order |
| `PoolScenarios.GivenObjectIsReused` | src/main/java/com/github/wilgaboury/pidpool/PidPool.java:75-113 | take, give below the limit, take: the same object comes back and nothing new is created |
| `PoolScenarios.ZeroLimitDestroysGive` | src/main/java/com/github/wilgaboury/pidpool/PidPool.java:36-112 | after `setMaxSize(0)` a give destroys its object and never enqueues it |
| `PoolScenarios.OverflowKeepsOneDestroysOne` | src/main/java/com/github/wilgaboury/pidpool/PidPool.java:97-112 | with limit 1, two gives keep the first and destroy the second |
| `PoolScenarios.TickTrimsToDemand` | src/main/java/com/github/wilgaboury/pidpool/PidPool.java:143-151 | limit 10, six idle, four in use, task running: one tick sets the limit to 4 and destroys the two oldest idle objects |
| `PoolScenarios.ReusedLeakStaysCounted` | src/main/java/com/github/wilgaboury/pidpool/PidPool.java:157-164 | take, tick, give, take again, one reclamation: `inUse` stays 1 and the skip is used up |
| `PoolScenarios.NegativeSampleStopsControlTask` | src/main/java/com/github/wilgaboury/pidpool/PidPool.java:40-43 | take, tick, two gives, tick: the limit is -1, the task has stopped, the idle object stays queued over the limit and only the second given object is destroyed; a later give is destroyed and a later tick changes nothing |

## Left out

- Threads, `synchronized` blocks, `awaitTermination` and interrupts: each public operation is one atomic method. The interleavings of its critical sections with other threads are not modelled. For example, a control run may sample `inUse` between `give`'s queue section and its counter update. Of the scheduled executor, only the suppression of later runs after a throw is modelled.
- The `Cleaner` and the `WeakReference`/`ReferenceQueue` detection of collected objects: the runtime's reclamation cannot be modelled. `ReclaimEvent` may be invoked at any time, and nothing ties the events to objects that `take` created.
- The scheduler-stopping part of `cleanup` and the implicit shutdown by the `Cleaner`: only the drain loop is modelled.
- A `create()` that throws: `take` then propagates the exception before changing any counter, and the model's `made` always succeeds.
- A `destroy` or `onDequeue` that throws: the lifecycle methods are foreign code, and the model records their calls only.
- `onEnqueue`: the code never calls it.
- `give(null)`: the model's objects are never null. In the source the outcome depends on the branch. Below the limit, `ArrayDeque.add(null)` throws before any counter moves. At or above the limit (always on a fresh pool, whose limit is 0), the counters still move (`inUse - 1`, `inUseSkip + 1`) and `destroy` is skipped. So a single `give(null)` on a fresh pool leaves `inUse == -1`, and the next run of the control task stops it for good, as described above.
- Java's 32-bit `int` wrap-around of `inUse`, `inUseSkip` and `maxSize`: the counters are unbounded integers.
- The fixed 500 ms period of the controller: timing does not affect the state rules.
- Which objects are in use: the code keeps only counters, so the design's rule that no object is both idle and in use has nothing in the state to be stated over.
