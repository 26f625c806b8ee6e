/** The pool as the source has it: `State` owns the idle deque, the limit and the two
    counters, and `PidPool` runs each public operation against it. Each operation is
    one atomic method here, although `take`, `give` and the control task each pass
    through two critical sections; lifecycle calls are recorded in ghost logs. */
module Pool {
  import opened PoolModel

  class State<T> {
    var queue: seq<T>        // the idle ArrayDeque, head first
    var maxSize: int         // guarded by the queue's lock
    var inUseSkip: int       // guarded by inUseLock
    var inUse: int           // guarded by inUseLock
    ghost var created: seq<T>
    ghost var dequeued: seq<T>
    ghost var destroyed: seq<Option<T>>

    /** The state as a value. Whether the control task has stopped is the executor's
        business, recorded by `PidPool`; a `State` alone reports it running. */
    ghost function Model(): (m: PoolState<T>)
      reads this
    {
      PoolState(queue, maxSize, inUse, inUseSkip, created, dequeued, destroyed, false)
    }

    /** A fresh state: empty queue, limit 0, both counters 0. */
    constructor ()
      ensures queue == [] && maxSize == 0 && inUse == 0 && inUseSkip == 0
      ensures created == [] && dequeued == [] && destroyed == []
      ensures Model() == Init()
    {
      queue := [];
      maxSize := 0;
      inUseSkip := 0;
      inUse := 0;
      created, dequeued, destroyed := [], [], [];
    }

    /** `ArrayDeque.poll()`: remove and return the head, or null when empty. */
    method Poll() returns (head: Option<T>)
      modifies this`queue
      ensures old(queue) == [] ==> head == None && queue == []
      ensures old(queue) != [] ==> head == Some(old(queue)[0]) && queue == old(queue)[1..]
    {
      if queue == [] {
        head := None;
      } else {
        head := Some(queue[0]);
        queue := queue[1..];
      }
    }

    /** `lifecycle.destroy(obj)`, recorded in the ghost log (None is a null argument). */
    method Destroy(obj: Option<T>)
      modifies this`destroyed
      ensures destroyed == old(destroyed) + [obj]
    {
      destroyed := destroyed + [obj];
    }

    /** `count` successive polls, collected in order (the list of doomed objects). */
    method PollMany(count: nat) returns (polled: seq<Option<T>>)
      modifies this`queue
      ensures polled == Polled(old(queue), count)
      ensures queue == old(queue)[Min(count, |old(queue)|)..]
    {
      ghost var q0 := queue;
      polled := [];
      var left := count;
      while left > 0
        invariant |polled| + left == count
        invariant polled == Polled(q0, |polled|)
        invariant queue == q0[Min(|polled|, |q0|)..]
      {
        PolledSnoc(q0, |polled|);
        var head := Poll();
        polled := polled + [head];
        left := left - 1;
      }
    }

    /** Destroy every entry of `doomed`, front to back. */
    method DestroyAll(doomed: seq<Option<T>>)
      modifies this`destroyed
      ensures destroyed == old(destroyed) + doomed
    {
      for i := 0 to |doomed|
        invariant destroyed == old(destroyed) + doomed[..i]
      {
        Destroy(doomed[i]);
      }
      assert doomed[..|doomed|] == doomed;
    }

    /** Set the limit (under the queue's lock); when the queue is longer than it,
        poll away the oldest idle objects beyond it, then destroy them in the order
        polled. The list of doomed objects is allocated with the new limit as its
        capacity, so a negative limit throws (`threw`) before anything is polled. */
    method SetMaxSize(newMaxSize: int) returns (threw: bool)
      modifies this
      ensures threw <==> newMaxSize < 0
      ensures Model() == Resize(old(Model()), newMaxSize)
      ensures maxSize == newMaxSize
      ensures inUse == old(inUse) && inUseSkip == old(inUseSkip)
      ensures created == old(created) && dequeued == old(dequeued)
      ensures newMaxSize >= 0 && |old(queue)| > newMaxSize ==>
        && queue == old(queue)[|old(queue)| - newMaxSize..]
        && destroyed == old(destroyed) + Polled(old(queue), |old(queue)| - newMaxSize)
      ensures |old(queue)| <= newMaxSize ==> queue == old(queue) && destroyed == old(destroyed)
      ensures newMaxSize < 0 ==> queue == old(queue) && destroyed == old(destroyed)
      ensures newMaxSize >= 0 ==> |queue| <= newMaxSize
    {
      ghost var s0 := Model();
      var doomed: seq<Option<T>> := [];
      var listed := false;
      threw := false;
      maxSize := newMaxSize;
      var diff := |queue| - newMaxSize;
      if diff > 0 {
        if maxSize < 0 {
          threw := true;   // new ArrayList<>(maxSize) rejects a negative capacity
          return;
        }
        doomed := PollMany(diff);
        listed := true;
      }
      assert queue == Resize(s0, newMaxSize).queue;
      if listed {
        assert s0.destroyed + doomed == Resize(s0, newMaxSize).destroyed;
        DestroyAll(doomed);
      }
      assert Model() == Resize(s0, newMaxSize);
      ResizeBounds(s0, newMaxSize);
    }

    /** The cleanup action's drain: poll and destroy idle objects until the queue is
        empty. Only the queue and the destroy log change. */
    method Drain()
      modifies this`queue, this`destroyed
      ensures Model() == DrainStep(old(Model()))
      ensures queue == []
    {
      ghost var s0 := Model();
      ghost var q0, d0 := queue, destroyed;
      while queue != []
        invariant |queue| <= |q0|
        invariant queue == q0[|q0| - |queue|..]
        invariant destroyed == d0 + Polled(q0, |q0| - |queue|)
        decreases |queue|
      {
        ghost var j := |q0| - |queue|;
        ghost var polled := Polled(q0, j);
        PolledSnoc(q0, j);
        assert queue[0] == q0[j];
        var obj := Poll();
        assert obj == Some(q0[j]) && queue == q0[j + 1..];
        Destroy(obj);
        assert (d0 + polled) + [obj] == d0 + (polled + [obj]);
      }
      DrainDestroysQueue(s0);
    }
  }

  class PidPool<T> {
    const state: State<T>
    /** Whether the scheduled control task has thrown; its fixed-rate executor then
        suppresses every later run. */
    var controlStopped: bool

    /** The state together with the control task's status. */
    ghost function Model(): (m: PoolState<T>)
      reads this, state
    {
      state.Model().(stopped := controlStopped)
    }

    ghost predicate Valid()
      reads this, state
    {
      Invariant(Model())
    }

    /** A fresh pool with its control task scheduled; the reference thread and the
        cleaner registration are not modelled. */
    constructor ()
      ensures fresh(state)
      ensures Model() == Init()
      ensures Valid()
    {
      state := new State();
      controlStopped := false;
    }

    /** Hand out the oldest idle object, or create one when the queue is empty
        (`made` is what lifecycle.create() returns), and count it in use. */
    method Take(made: T) returns (obj: T)
      requires Valid()
      modifies state
      ensures Valid()
      ensures (Model(), obj) == TakeStep(old(Model()), made)
      ensures old(state.queue) != [] ==>
        && obj == old(state.queue)[0]
        && state.queue == old(state.queue)[1..]
        && state.dequeued == old(state.dequeued) + [obj]
        && state.created == old(state.created)
      ensures old(state.queue) == [] ==>
        && obj == made
        && state.queue == []
        && state.created == old(state.created) + [made]
        && state.dequeued == old(state.dequeued)
      ensures state.inUse == old(state.inUse) + 1 && state.inUseSkip == old(state.inUseSkip)
      ensures state.maxSize == old(state.maxSize) && state.destroyed == old(state.destroyed)
    {
      var head: Option<T> := None;
      if state.queue != [] {
        head := state.Poll();
      }
      if head.Some? {
        obj := head.value;
        state.dequeued := state.dequeued + [obj];   // lifecycle.onDequeue(obj)
      } else {
        obj := made;
        state.created := state.created + [obj];     // lifecycle.create()
      }
      state.inUse := state.inUse + 1;
    }

    /** Keep `obj` at the tail while the queue is below the limit, else destroy it;
        either way move one from inUse to inUseSkip. */
    method Give(obj: T)
      requires Valid()
      modifies state
      ensures Valid()
      ensures Model() == GiveStep(old(Model()), obj)
      ensures |old(state.queue)| < old(state.maxSize) ==>
        state.queue == old(state.queue) + [obj] && state.destroyed == old(state.destroyed)
      ensures |old(state.queue)| >= old(state.maxSize) ==>
        state.queue == old(state.queue) && state.destroyed == old(state.destroyed) + [Some(obj)]
      ensures state.inUse == old(state.inUse) - 1 && state.inUseSkip == old(state.inUseSkip) + 1
      ensures state.maxSize == old(state.maxSize)
      ensures state.created == old(state.created) && state.dequeued == old(state.dequeued)
    {
      var doomed := true;
      if |state.queue| < state.maxSize {
        state.queue := state.queue + [obj];
        doomed := false;
      }
      state.inUseSkip := state.inUseSkip + 1;
      state.inUse := state.inUse - 1;
      if doomed {
        state.Destroy(Some(obj));
      }
    }

    method GetInUse() returns (n: int)
      ensures n == state.inUse
    {
      n := state.inUse;
    }

    method GetMaxSize() returns (n: int)
      ensures n == state.maxSize
    {
      n := state.maxSize;
    }

    /** One scheduled run of the control task: sample inUse, then resize the limit
        to it. If the resize throws, the executor runs the task no more. */
    method ControlTick()
      requires Valid()
      modifies this, state
      ensures Valid()
      ensures Model() == TickStep(old(Model()))
      ensures old(controlStopped) ==> Model() == old(Model())
      ensures !old(controlStopped) && old(state.inUse) >= 0 ==>
        && state.maxSize == old(state.inUse)
        && |state.queue| <= state.maxSize
        && !controlStopped
      ensures !old(controlStopped) && old(state.inUse) < 0 ==>
        && state.maxSize == old(state.inUse)
        && state.queue == old(state.queue) && state.destroyed == old(state.destroyed)
        && controlStopped
    {
      if !controlStopped {
        var sampled := state.inUse;
        var threw := state.SetMaxSize(sampled);
        if threw {
          controlStopped := true;
        }
      }
    }

    /** One pass of the reclamation loop, after the runtime reports that an object
        this pool created has been collected. */
    method ReclaimEvent()
      requires Valid()
      modifies state
      ensures Valid()
      ensures Model() == ReclaimStep(old(Model()))
      ensures old(state.inUseSkip) > 0 ==>
        state.inUseSkip == old(state.inUseSkip) - 1 && state.inUse == old(state.inUse)
      ensures old(state.inUseSkip) <= 0 ==>
        state.inUse == old(state.inUse) - 1 && state.inUseSkip == old(state.inUseSkip)
      ensures state.queue == old(state.queue) && state.maxSize == old(state.maxSize)
    {
      if state.inUseSkip > 0 {
        state.inUseSkip := state.inUseSkip - 1;
      } else {
        state.inUse := state.inUse - 1;
      }
    }
  }
}
