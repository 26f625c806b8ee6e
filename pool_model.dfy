/** Value-level model of the state behind PidPool: one function per public
    operation, an operation log that replays them, and the properties that hold in
    every state the pool can reach. */
module PoolModel {

  /** A slot that may hold null: `None` stands for Java's `null`. */
  datatype Option<T> = None | Some(value: T)

  /** Snapshot of `PidPool.State` together with ghost logs of the lifecycle calls.
      `queue` is the idle ArrayDeque, head (index 0) first and oldest. */
  datatype PoolState<T> = PoolState(
    queue: seq<T>,
    maxSize: int,
    inUse: int,
    inUseSkip: int,
    created: seq<T>,            // results of lifecycle.create(), in call order
    dequeued: seq<T>,           // arguments of lifecycle.onDequeue(), in call order
    destroyed: seq<Option<T>>,  // arguments of lifecycle.destroy(), in call order
    stopped: bool)              // the control task has thrown; its executor runs it no more

  /** The state a freshly constructed pool starts in. */
  function Init<T>(): (r: PoolState<T>)
    ensures Invariant(r)
    ensures r.queue == [] && !r.stopped
  {
    PoolState([], 0, 0, 0, [], [], [], false)
  }

  function Min(a: int, b: int): (r: int)
  {
    if a <= b then a else b
  }

  /** What `k` successive `poll()` calls on a deque holding `q` return:
      its elements front to back, then null once the deque is empty. */
  function Polled<T>(q: seq<T>, k: nat): (r: seq<Option<T>>)
    ensures |r| == k
    ensures forall i :: 0 <= i < k ==> r[i] == if i < |q| then Some(q[i]) else None
  {
    if k == 0 then []
    else if q == [] then [None] + Polled(q, k - 1)
    else [Some(q[0])] + Polled(q[1..], k - 1)
  }

  /** One more poll appends the next element, or null past the end. */
  lemma PolledSnoc<T>(q: seq<T>, k: nat)
    ensures Polled(q, k + 1) == Polled(q, k) + [if k < |q| then Some(q[k]) else None]
  {
    var a, b := Polled(q, k + 1), Polled(q, k) + [if k < |q| then Some(q[k]) else None];
    assert forall i :: 0 <= i < k + 1 ==> a[i] == b[i];
  }

  /** The non-null entries of a log, in order. */
  function Objects<T>(log: seq<Option<T>>): (r: seq<T>)
    ensures |r| <= |log|
  {
    if log == [] then []
    else (if log[0].Some? then [log[0].value] else []) + Objects(log[1..])
  }

  lemma {:induction false} ObjectsAppend<T>(a: seq<Option<T>>, b: seq<Option<T>>)
    ensures Objects(a + b) == Objects(a) + Objects(b)
  {
    if a == [] {
      assert a + b == b;
    } else {
      assert (a + b)[0] == a[0];
      assert (a + b)[1..] == a[1..] + b;
      ObjectsAppend(a[1..], b);
    }
  }

  lemma ObjectsCons<T>(x: Option<T>, rest: seq<Option<T>>)
    ensures Objects([x] + rest) == (if x.Some? then [x.value] else []) + Objects(rest)
  {
    assert ([x] + rest)[0] == x;
    assert ([x] + rest)[1..] == rest;
  }

  lemma PrefixCons<T>(q: seq<T>, m: nat)
    requires 0 < m <= |q|
    ensures q[..m] == [q[0]] + q[1..][..m - 1]
  {
  }

  /** Polling an empty deque yields nulls only. */
  lemma {:induction false} ObjectsOfNullPolls<T>(q: seq<T>, k: nat)
    requires q == []
    ensures Objects(Polled(q, k)) == []
  {
    if k > 0 {
      assert Polled(q, k) == [None] + Polled(q, k - 1);
      ObjectsCons(None, Polled(q, k - 1));
      ObjectsOfNullPolls(q, k - 1);
    }
  }

  /** Polling at most the whole deque yields exactly its oldest elements. */
  lemma {:induction false} ObjectsOfPolled<T>(q: seq<T>, k: nat)
    ensures Objects(Polled(q, k)) == q[..Min(k, |q|)]
  {
    if k == 0 {
    } else if q == [] {
      ObjectsOfNullPolls(q, k);
    } else {
      var rest := Polled(q[1..], k - 1);
      var m := Min(k, |q|);
      ObjectsCons(Some(q[0]), rest);
      ObjectsOfPolled(q[1..], k - 1);
      PrefixCons(q, m);
      calc {
        Objects(Polled(q, k));
        Objects([Some(q[0])] + rest);
        [q[0]] + Objects(rest);
        [q[0]] + q[1..][..Min(k - 1, |q| - 1)];
        { assert Min(k - 1, |q| - 1) == m - 1; }
        q[..m];
      }
    }
  }

  // ---------------------------------------------------------------------------
  // One function per public operation

  /** `take()`: poll the head if the queue is non-empty (and call onDequeue on it),
      otherwise call create(), whose result is `made`; then count one more in use. */
  function TakeStep<T>(s: PoolState<T>, made: T): (r: (PoolState<T>, T))
    ensures s.queue != [] ==> [r.1] + r.0.queue == s.queue && r.0.dequeued == s.dequeued + [r.1]
    ensures s.queue == [] ==> r.1 == made && r.0.queue == [] && r.0.created == s.created + [made]
    ensures |r.0.created| + |r.0.dequeued| == |s.created| + |s.dequeued| + 1
    ensures r.0.inUse == s.inUse + 1 && r.0.inUseSkip == s.inUseSkip
    ensures r.0.maxSize == s.maxSize && r.0.destroyed == s.destroyed && r.0.stopped == s.stopped
  {
    if s.queue != [] then
      (s.(queue := s.queue[1..], dequeued := s.dequeued + [s.queue[0]], inUse := s.inUse + 1),
       s.queue[0])
    else
      (s.(created := s.created + [made], inUse := s.inUse + 1), made)
  }

  /** `give(obj)`: keep `obj` at the tail while the queue is below `maxSize`,
      otherwise destroy it; in both branches move one from `inUse` to `inUseSkip`. */
  function GiveStep<T>(s: PoolState<T>, obj: T): (r: PoolState<T>)
    ensures r.queue == s.queue + [obj] <==> |s.queue| < s.maxSize
    ensures r.destroyed == s.destroyed + [Some(obj)] <==> |s.queue| >= s.maxSize
    ensures r.queue == s.queue + [obj] || r.queue == s.queue
    ensures r.destroyed == s.destroyed + [Some(obj)] || r.destroyed == s.destroyed
    ensures r.inUse + r.inUseSkip == s.inUse + s.inUseSkip
    ensures r.inUse == s.inUse - 1 && r.maxSize == s.maxSize && r.stopped == s.stopped
  {
    var kept := |s.queue| < s.maxSize;
    s.(queue := if kept then s.queue + [obj] else s.queue,
       destroyed := if kept then s.destroyed else s.destroyed + [Some(obj)],
       inUse := s.inUse - 1,
       inUseSkip := s.inUseSkip + 1)
  }

  /** Whether `State.setMaxSize(n)` throws: when there is something to trim, the
      list of doomed objects is allocated with the new limit as its capacity, and a
      negative capacity makes the ArrayList constructor throw. */
  function ResizeThrows<T>(s: PoolState<T>, n: int): (r: bool)
    ensures r <==> n < 0
  {
    |s.queue| - n > 0 && n < 0
  }

  /** `State.setMaxSize(n)`: set the limit; when the queue is longer than it, poll
      `|queue| - n` objects and destroy them in order. When that throws, only the
      limit has changed. */
  function Resize<T>(s: PoolState<T>, n: int): (r: PoolState<T>)
    ensures r.maxSize == n
    ensures |r.queue| <= |s.queue|
    ensures |r.destroyed| == |s.destroyed| + |s.queue| - |r.queue|
    ensures r.inUse == s.inUse && r.inUseSkip == s.inUseSkip && r.stopped == s.stopped
    ensures r.created == s.created && r.dequeued == s.dequeued
  {
    var diff := |s.queue| - n;
    if ResizeThrows(s, n) then
      s.(maxSize := n)
    else if diff > 0 then
      s.(maxSize := n,
         queue := s.queue[diff..],
         destroyed := s.destroyed + Polled(s.queue, diff))
    else
      s.(maxSize := n)
  }

  /** One scheduled run of the control task: sample `inUse`, then `setMaxSize` to it.
      A run that throws stops the task for good, as a fixed-rate executor suppresses
      every later run of a task that threw; a stopped task does nothing. */
  function TickStep<T>(s: PoolState<T>): (r: PoolState<T>)
    ensures r.stopped <==> s.stopped || s.inUse < 0
    ensures !s.stopped ==> r.maxSize == s.inUse
    ensures s.stopped ==> r == s
    ensures r.inUse == s.inUse && r.inUseSkip == s.inUseSkip
  {
    if s.stopped then s
    else Resize(s, s.inUse).(stopped := ResizeThrows(s, s.inUse))
  }

  /** One pass of the reclamation loop: skip a pending give, or else count one
      fewer in use. */
  function ReclaimStep<T>(s: PoolState<T>): (r: PoolState<T>)
    ensures r.inUse + r.inUseSkip == s.inUse + s.inUseSkip - 1
    ensures s.inUseSkip > 0 ==> r.inUse == s.inUse
    ensures s.inUseSkip <= 0 ==> r.inUseSkip == s.inUseSkip
    ensures r.queue == s.queue && r.maxSize == s.maxSize && r.destroyed == s.destroyed
  {
    if s.inUseSkip > 0 then s.(inUseSkip := s.inUseSkip - 1) else s.(inUse := s.inUse - 1)
  }

  /** The teardown drain: poll and destroy until the queue is empty. */
  function DrainStep<T>(s: PoolState<T>): (r: PoolState<T>)
    ensures r.queue == []
    ensures |r.destroyed| == |s.destroyed| + |s.queue| && r.destroyed[..|s.destroyed|] == s.destroyed
    ensures r.maxSize == s.maxSize && r.inUse == s.inUse && r.inUseSkip == s.inUseSkip
  {
    s.(queue := [], destroyed := s.destroyed + Polled(s.queue, |s.queue|))
  }

  // ---------------------------------------------------------------------------
  // Operation logs

  /** An atomic step; `Take(made)` carries what create() returns if it is called. */
  datatype Op<T> = Take(made: T) | Give(obj: T) | Tick | Reclaim | Drain

  function Step<T>(s: PoolState<T>, op: Op<T>): (r: PoolState<T>)
  {
    match op
    case Take(made) => TakeStep(s, made).0
    case Give(obj) => GiveStep(s, obj)
    case Tick => TickStep(s)
    case Reclaim => ReclaimStep(s)
    case Drain => DrainStep(s)
  }

  function Run<T>(s: PoolState<T>, ops: seq<Op<T>>): (r: PoolState<T>)
    decreases |ops|
  {
    if ops == [] then s else Run(Step(s, ops[0]), ops[1..])
  }

  /** The object a step hands to `give`, if it is one. */
  function GivenBy<T>(op: Op<T>): (r: seq<T>)
  {
    if op.Give? then [op.obj] else []
  }

  /** The objects handed to `give`, in order. */
  function Given<T>(ops: seq<Op<T>>): (r: seq<T>)
  {
    if ops == [] then [] else GivenBy(ops[0]) + Given(ops[1..])
  }

  function Takes<T>(ops: seq<Op<T>>): (r: nat)
  {
    if ops == [] then 0 else (if ops[0].Take? then 1 else 0) + Takes(ops[1..])
  }

  function Reclaims<T>(ops: seq<Op<T>>): (r: nat)
  {
    if ops == [] then 0 else (if ops[0].Reclaim? then 1 else 0) + Reclaims(ops[1..])
  }

  // ---------------------------------------------------------------------------
  // Invariants

  /** While the control task runs, never more idle objects than the limit. Once it
      has stopped, the limit is negative (and stays so; see `StoppedTaskIsStuck`). */
  ghost predicate Bounded<T>(s: PoolState<T>)
  {
    if s.stopped then s.maxSize < 0 else |s.queue| <= s.maxSize
  }

  ghost predicate Invariant<T>(s: PoolState<T>)
  {
    Bounded(s) && s.inUseSkip >= 0
  }

  /** A resize to a non-negative limit leaves the queue within it. */
  lemma ResizeBounds<T>(s: PoolState<T>, n: int)
    ensures Resize(s, n).maxSize == n
    ensures n >= 0 ==> |Resize(s, n).queue| <= n
  {
  }

  lemma StepKeepsInvariant<T>(s: PoolState<T>, op: Op<T>)
    requires Invariant(s)
    ensures Invariant(Step(s, op))
  {
    if op.Tick? && !s.stopped {
      ResizeBounds(s, s.inUse);
    }
  }

  lemma {:induction false} RunKeepsInvariant<T>(s: PoolState<T>, ops: seq<Op<T>>)
    requires Invariant(s)
    ensures Invariant(Run(s, ops))
    decreases |ops|
  {
    if ops != [] {
      StepKeepsInvariant(s, ops[0]);
      RunKeepsInvariant(Step(s, ops[0]), ops[1..]);
    }
  }

  /** Every state reachable from a fresh pool keeps `|queue| <= maxSize` while the
      control task runs, a negative limit once it has stopped, and a non-negative
      skip counter. */
  lemma Reachable<T>(ops: seq<Op<T>>)
    ensures Invariant(Run(Init(), ops))
  {
    RunKeepsInvariant(Init<T>(), ops);
  }

  // ---------------------------------------------------------------------------
  // setMaxSize and the control task

  /** With a non-negative limit, setMaxSize trims the oldest `|queue| - n` idle
      objects, destroys exactly those in queue order and keeps the newest `n`;
      a queue already within the limit is left alone and nothing is destroyed. */
  lemma ResizeTrimsOldest<T>(s: PoolState<T>, n: int)
    requires n >= 0
    ensures var r := Resize(s, n);
      && r.maxSize == n
      && r.inUse == s.inUse && r.inUseSkip == s.inUseSkip
      && r.created == s.created && r.dequeued == s.dequeued && r.stopped == s.stopped
      && (|s.queue| > n ==>
            && r.queue == s.queue[|s.queue| - n..]
            && |r.queue| == n
            && |r.destroyed| == |s.destroyed| + |s.queue| - n
            && r.destroyed[..|s.destroyed|] == s.destroyed
            && (forall i :: 0 <= i < |s.queue| - n ==> r.destroyed[|s.destroyed| + i] == Some(s.queue[i])))
      && (|s.queue| <= n ==> r.queue == s.queue && r.destroyed == s.destroyed)
  {
    var r := Resize(s, n);
    if |s.queue| > n {
      var d := |s.queue| - n;
      forall i | 0 <= i < d
        ensures r.destroyed[|s.destroyed| + i] == Some(s.queue[i])
      {
        assert r.destroyed[|s.destroyed| + i] == Polled(s.queue, d)[i];
      }
    }
  }

  /** With a negative limit setMaxSize throws after storing the limit and before
      polling anything: only `maxSize` changes, nothing is destroyed. */
  lemma ResizeNegative<T>(s: PoolState<T>, n: int)
    requires n < 0
    ensures ResizeThrows(s, n)
    ensures Resize(s, n) == s.(maxSize := n)
  {
  }

  /** Every resize moves a prefix of the queue, oldest first, into the destroyed log
      (an empty prefix when it keeps the queue or throws). */
  lemma ResizeMovesPrefix<T>(s: PoolState<T>, n: int)
    ensures var r := Resize(s, n);
      var k := |s.queue| - |r.queue|;
      && 0 <= k <= |s.queue|
      && r.queue == s.queue[k..]
      && Objects(r.destroyed) == Objects(s.destroyed) + s.queue[..k]
  {
    var r := Resize(s, n);
    var diff := |s.queue| - n;
    if !ResizeThrows(s, n) && diff > 0 {
      ObjectsAppend(s.destroyed, Polled(s.queue, diff));
      ObjectsOfPolled(s.queue, diff);
      assert Min(diff, |s.queue|) == diff;
    } else {
      assert s.queue[..0] == [];
      assert s.queue[0..] == s.queue;
    }
  }

  /** A run of the control task: with a non-negative sample the limit becomes the
      sample and the queue fits it; with a negative sample the limit becomes the
      sample, the queue and the destroyed log are untouched and the task stops;
      a stopped task changes nothing. The counters are never touched. */
  lemma TickTracksDemand<T>(s: PoolState<T>)
    ensures var r := TickStep(s);
      && r.inUse == s.inUse && r.inUseSkip == s.inUseSkip
      && (!s.stopped && s.inUse >= 0 ==>
            r.maxSize == s.inUse && |r.queue| <= r.maxSize && !r.stopped)
      && (!s.stopped && s.inUse < 0 ==>
            && r.maxSize == s.inUse && r.stopped
            && r.queue == s.queue && r.destroyed == s.destroyed)
      && (s.stopped ==> r == s)
  {
    if !s.stopped {
      ResizeBounds(s, s.inUse);
    }
  }

  /** One step of a pool whose control task has stopped. */
  lemma StoppedStep<T>(s: PoolState<T>, op: Op<T>)
    requires s.stopped && s.maxSize < 0
    ensures var t := Step(s, op);
      && t.stopped && t.maxSize == s.maxSize
      && |t.queue| <= |s.queue|
      && t.queue == s.queue[|s.queue| - |t.queue|..]
  {
    match op
    case Take(made) =>
    case Give(obj) =>
    case Tick =>
    case Reclaim =>
    case Drain =>
  }

  /** A suffix of a suffix is a suffix. */
  lemma SuffixOfSuffix<T>(q: seq<T>, t: seq<T>, r: seq<T>)
    requires |t| <= |q| && t == q[|q| - |t|..]
    requires |r| <= |t| && r == t[|t| - |r|..]
    ensures r == q[|q| - |r|..]
  {
  }

  /** Once the control task has stopped, the negative limit is permanent: the task
      stays stopped, every give destroys its object, so the queue never grows again
      and only loses objects from its front. */
  lemma {:induction false} StoppedTaskIsStuck<T>(s: PoolState<T>, ops: seq<Op<T>>)
    requires s.stopped && s.maxSize < 0
    ensures var r := Run(s, ops);
      && r.stopped && r.maxSize == s.maxSize
      && |r.queue| <= |s.queue|
      && r.queue == s.queue[|s.queue| - |r.queue|..]
    decreases |ops|
  {
    if ops == [] {
      assert s.queue[|s.queue| - |s.queue|..] == s.queue;
    } else {
      var t := Step(s, ops[0]);
      StoppedStep(s, ops[0]);
      StoppedTaskIsStuck(t, ops[1..]);
      var r := Run(t, ops[1..]);
      assert Run(s, ops) == r;
      SuffixOfSuffix(s.queue, t.queue, r.queue);
    }
  }

  // ---------------------------------------------------------------------------
  // Custody: every object handed to give is accounted for exactly once

  /** Objects in the pool's custody: idle, handed out again, or destroyed. */
  ghost function Custody<T>(s: PoolState<T>): (m: multiset<T>)
  {
    multiset(s.queue) + multiset(s.dequeued) + multiset(Objects(s.destroyed))
  }

  lemma SplitMultiset<T>(q: seq<T>, m: nat)
    requires m <= |q|
    ensures multiset(q) == multiset(q[..m]) + multiset(q[m..])
  {
    assert q == q[..m] + q[m..];
  }

  /** Resizing moves the trimmed objects from the queue to the destroyed log. */
  lemma ResizeCustody<T>(s: PoolState<T>, n: int)
    ensures Custody(Resize(s, n)) == Custody(s)
  {
    var r := Resize(s, n);
    ResizeMovesPrefix(s, n);
    SplitMultiset(s.queue, |s.queue| - |r.queue|);
  }

  lemma TakeCustody<T>(s: PoolState<T>, made: T)
    ensures Custody(TakeStep(s, made).0) == Custody(s)
  {
    if s.queue != [] {
      assert s.queue == [s.queue[0]] + s.queue[1..];
      assert multiset(s.queue) == multiset{s.queue[0]} + multiset(s.queue[1..]);
    }
  }

  lemma ObjectsSingle<T>(x: T)
    ensures Objects([Some(x)]) == [x]
  {
    assert [Some(x)][1..] == [];
  }

  lemma GiveCustody<T>(s: PoolState<T>, obj: T)
    ensures Custody(GiveStep(s, obj)) == Custody(s) + multiset{obj}
  {
    ObjectsAppend(s.destroyed, [Some(obj)]);
    ObjectsSingle(obj);
  }

  lemma DrainCustody<T>(s: PoolState<T>)
    ensures Custody(DrainStep(s)) == Custody(s)
  {
    ObjectsAppend(s.destroyed, Polled(s.queue, |s.queue|));
    ObjectsOfPolled(s.queue, |s.queue|);
    assert s.queue[..|s.queue|] == s.queue;
  }

  /** The teardown drain destroys every idle object, front to back, and nothing else. */
  lemma DrainDestroysQueue<T>(s: PoolState<T>)
    ensures var r := DrainStep(s);
      && r.queue == []
      && |r.destroyed| == |s.destroyed| + |s.queue|
      && Objects(r.destroyed) == Objects(s.destroyed) + s.queue
  {
    ObjectsAppend(s.destroyed, Polled(s.queue, |s.queue|));
    ObjectsOfPolled(s.queue, |s.queue|);
    assert s.queue[..|s.queue|] == s.queue;
  }

  lemma StepCustody<T>(s: PoolState<T>, op: Op<T>)
    ensures Custody(Step(s, op)) == Custody(s) + multiset(GivenBy(op))
  {
    match op
    case Take(made) => TakeCustody(s, made);
    case Give(obj) => GiveCustody(s, obj);
    case Tick =>
      if !s.stopped {
        ResizeCustody(s, s.inUse);
      }
    case Reclaim =>
    case Drain => DrainCustody(s);
  }

  /** Over any run, what the pool holds, has handed out again or has destroyed grows
      by exactly the multiset of objects given back: nothing is lost or duplicated. */
  lemma {:induction false} RunCustody<T>(s: PoolState<T>, ops: seq<Op<T>>)
    ensures Custody(Run(s, ops)) == Custody(s) + multiset(Given(ops))
    decreases |ops|
  {
    if ops != [] {
      StepCustody(s, ops[0]);
      RunCustody(Step(s, ops[0]), ops[1..]);
      assert multiset(Given(ops)) == multiset(GivenBy(ops[0])) + multiset(Given(ops[1..]));
    }
  }

  // ---------------------------------------------------------------------------
  // Counter accounting

  /** take adds one to inUse; give moves one from inUse to inUseSkip; each
      reclamation event removes one from exactly one of them; ticks and the drain
      leave both alone. So inUse lies between takes minus gives minus reclamations
      and takes minus gives, and every take either reuses an idle object or
      creates one. */
  lemma {:induction false} RunAccounting<T>(s: PoolState<T>, ops: seq<Op<T>>)
    ensures var r := Run(s, ops);
      && s.inUse + Takes(ops) - |Given(ops)| - Reclaims(ops) <= r.inUse <= s.inUse + Takes(ops) - |Given(ops)|
      && r.inUse + r.inUseSkip == s.inUse + s.inUseSkip + Takes(ops) - Reclaims(ops)
      && |r.created| + |r.dequeued| == |s.created| + |s.dequeued| + Takes(ops)
    decreases |ops|
  {
    if ops != [] {
      var t := Step(s, ops[0]);
      match ops[0] {
        case Take(made) =>
        case Give(obj) =>
        case Tick =>
        case Reclaim =>
        case Drain =>
      }
      assert s.inUse + (if ops[0].Take? then 1 else 0) - (if ops[0].Give? then 1 else 0) - (if ops[0].Reclaim? then 1 else 0)
        <= t.inUse <= s.inUse + (if ops[0].Take? then 1 else 0) - (if ops[0].Give? then 1 else 0);
      assert t.inUse + t.inUseSkip == s.inUse + s.inUseSkip
        + (if ops[0].Take? then 1 else 0) - (if ops[0].Reclaim? then 1 else 0);
      assert |t.created| + |t.dequeued| == |s.created| + |s.dequeued| + (if ops[0].Take? then 1 else 0);
      RunAccounting(t, ops[1..]);
    }
  }

  /** No reclamation event among the steps. */
  ghost predicate NoReclaim<T>(ops: seq<Op<T>>)
  {
    ops == [] || (!ops[0].Reclaim? && NoReclaim(ops[1..]))
  }

  /** Objects created and not (yet) destroyed, less those idle or counted in use. */
  ghost function Unaccounted<T>(s: PoolState<T>): (d: int)
  {
    |s.created| - |Objects(s.destroyed)| - |s.queue| - s.inUse
  }

  /** Every step but a reclamation event keeps the live objects equal to the idle
      ones plus those counted in use. */
  lemma StepKeepsLiveCount<T>(s: PoolState<T>, op: Op<T>)
    requires !op.Reclaim?
    ensures Unaccounted(Step(s, op)) == Unaccounted(s)
  {
    match op
    case Take(made) =>
    case Give(obj) =>
      ObjectsAppend(s.destroyed, [Some(obj)]);
      ObjectsSingle(obj);
    case Tick =>
      if !s.stopped {
        ResizeMovesPrefix(s, s.inUse);
      }
    case Drain => DrainDestroysQueue(s);
  }

  lemma {:induction false} RunKeepsLiveCount<T>(s: PoolState<T>, ops: seq<Op<T>>)
    requires NoReclaim(ops)
    ensures Unaccounted(Run(s, ops)) == Unaccounted(s)
    decreases |ops|
  {
    if ops != [] {
      StepKeepsLiveCount(s, ops[0]);
      RunKeepsLiveCount(Step(s, ops[0]), ops[1..]);
    }
  }

  /** Until the first reclamation event, a pool holds (idle or handed out) exactly the
      objects it created and has not destroyed, one per idle slot or in-use count;
      while the control task runs, that is at most the limit plus the demand. */
  lemma LiveWithinLimitPlusDemand<T>(ops: seq<Op<T>>)
    requires NoReclaim(ops)
    ensures var r := Run(Init(), ops);
      && |r.created| - |Objects(r.destroyed)| == |r.queue| + r.inUse
      && (!r.stopped ==> |r.created| - |Objects(r.destroyed)| <= r.maxSize + r.inUse)
  {
    RunKeepsLiveCount(Init<T>(), ops);
    Reachable(ops);
  }

  // ---------------------------------------------------------------------------
  // Before the first run of the control task

  /** No run of the control task among the steps. */
  ghost predicate NoTick<T>(ops: seq<Op<T>>)
  {
    ops == [] || (!ops[0].Tick? && NoTick(ops[1..]))
  }

  lemma NoTickStep<T>(s: PoolState<T>, op: Op<T>)
    requires s.maxSize <= 0 && s.queue == [] && !op.Tick?
    ensures var t := Step(s, op);
      && t.maxSize == s.maxSize
      && t.queue == []
      && t.dequeued == s.dequeued
      && |t.created| == |s.created| + (if op.Take? then 1 else 0)
      && Objects(t.destroyed) == Objects(s.destroyed) + GivenBy(op)
  {
    match op
    case Take(made) =>
    case Give(obj) =>
      ObjectsAppend(s.destroyed, [Some(obj)]);
      ObjectsSingle(obj);
    case Reclaim =>
    case Drain =>
      assert Polled(s.queue, 0) == [];
      assert s.destroyed + [] == s.destroyed;
  }

  /** Until the control task first runs, the limit stays at its initial value (at most
      zero), so the queue stays empty and every take creates. */
  lemma {:induction false} NoTickNoReuse<T>(s: PoolState<T>, ops: seq<Op<T>>)
    requires s.maxSize <= 0 && s.queue == []
    requires NoTick(ops)
    ensures var r := Run(s, ops);
      && r.maxSize == s.maxSize
      && r.queue == []
      && r.dequeued == s.dequeued
      && |r.created| == |s.created| + Takes(ops)
    decreases |ops|
  {
    if ops != [] {
      NoTickStep(s, ops[0]);
      NoTickNoReuse(Step(s, ops[0]), ops[1..]);
    }
  }

  /** ... and every object given back in that time is destroyed, in order. */
  lemma {:induction false} NoTickDestroysGiven<T>(s: PoolState<T>, ops: seq<Op<T>>)
    requires s.maxSize <= 0 && s.queue == []
    requires NoTick(ops)
    ensures Objects(Run(s, ops).destroyed) == Objects(s.destroyed) + Given(ops)
    decreases |ops|
  {
    if ops != [] {
      NoTickStep(s, ops[0]);
      var t := Step(s, ops[0]);
      NoTickDestroysGiven(t, ops[1..]);
      var r := Run(t, ops[1..]);
      assert Run(s, ops) == r;
      var x, a, b := Objects(s.destroyed), GivenBy(ops[0]), Given(ops[1..]);
      assert Given(ops) == a + b;
      assert Objects(r.destroyed) == Objects(t.destroyed) + b;
      assert Objects(t.destroyed) == x + a;
      assert (x + a) + b == x + (a + b);
    }
  }

  /** A fresh pool destroys every object given back before the first tick. */
  lemma FreshPoolDestroysEveryGive<T>(ops: seq<Op<T>>)
    requires NoTick(ops)
    ensures Run(Init(), ops).queue == []
    ensures Objects(Run(Init(), ops).destroyed) == Given(ops)
  {
    NoTickNoReuse(Init<T>(), ops);
    NoTickDestroysGiven(Init<T>(), ops);
  }
}
