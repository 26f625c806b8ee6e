/** Concrete runs of the pool model: the behaviours the pool's design promises for
    small sequences of calls, and one consequence of its skip accounting. */
module PoolScenarios {
  import opened PoolModel

  /** On an empty pool, three takes create three objects, handed out in creation order. */
  lemma TakesOnEmptyPoolCreateInOrder<T>(s: PoolState<T>, a: T, b: T, c: T)
    requires s.queue == []
    ensures var (s1, x) := TakeStep(s, a);
      var (s2, y) := TakeStep(s1, b);
      var (s3, z) := TakeStep(s2, c);
      && [x, y, z] == [a, b, c]
      && s3.created == s.created + [a, b, c]
      && s3.inUse == s.inUse + 3
  {
  }

  /** An object given back below the limit is the next one taken: no new creation. */
  lemma GivenObjectIsReused<T>(s: PoolState<T>, a: T, b: T)
    requires s.queue == [] && s.maxSize >= 1
    ensures var (s1, x) := TakeStep(s, a);
      var s2 := GiveStep(s1, x);
      var (s3, y) := TakeStep(s2, b);
      && y == a
      && s3.created == s.created + [a]
      && s3.dequeued == s.dequeued + [a]
      && s3.destroyed == s.destroyed
  {
  }

  /** After the limit is set to 0, a give destroys its object and never enqueues it. */
  lemma ZeroLimitDestroysGive<T>(s: PoolState<T>, obj: T)
    ensures var r := GiveStep(Resize(s, 0), obj);
      && r.queue == []
      && r.destroyed[|r.destroyed| - 1] == Some(obj)
  {
  }

  /** With limit 1 and an empty queue, two gives keep the first and destroy the second. */
  lemma OverflowKeepsOneDestroysOne<T>(s: PoolState<T>, x: T, y: T)
    requires s.maxSize == 1 && s.queue == []
    ensures var r := GiveStep(GiveStep(s, x), y);
      && r.queue == [x]
      && r.destroyed == s.destroyed + [Some(y)]
  {
  }

  /** Limit 10, six idle objects, four in use, control task running: one tick
      lowers the limit to 4 and destroys the two oldest idle objects. */
  lemma TickTrimsToDemand<T>(s: PoolState<T>, q: seq<T>)
    requires !s.stopped && s.maxSize == 10 && s.inUse == 4 && s.queue == q && |q| == 6
    ensures var r := TickStep(s);
      && r.maxSize == 4
      && r.queue == q[2..]
      && r.destroyed == s.destroyed + [Some(q[0]), Some(q[1])]
  {
    assert Polled(q, 2) == [Some(q[0]), Some(q[1])];
  }

  /** A leaked object that had been given back and taken again is not counted down:
      its one reclamation event is absorbed by the skip its earlier give left. */
  lemma ReusedLeakStaysCounted<T>(a: T, b: T)
    ensures var r := Run(Init(), [Take(a), Tick, Give(a), Take(b), Reclaim]);
      && r.dequeued == [a]
      && r.queue == []
      && r.inUse == 1
      && r.inUseSkip == 0
  {
    var ops := [Take(a), Tick, Give(a), Take(b), Reclaim];
    var s1 := Step(Init(), Take(a));
    assert s1.queue == [] && s1.inUse == 1 && s1.created == [a];
    var s2 := Step(s1, Tick);
    assert s2.maxSize == 1 && s2.queue == [];
    var s3 := Step(s2, Give(a));
    assert s3.queue == [a] && s3.inUse == 0 && s3.inUseSkip == 1;
    var s4 := Step(s3, Take(b));
    assert s4.queue == [] && s4.dequeued == [a] && s4.inUse == 1;
    var s5 := Step(s4, Reclaim);
    assert s5.inUse == 1 && s5.inUseSkip == 0;
    assert ops[1..] == [Tick, Give(a), Take(b), Reclaim];
    assert Run(Init(), ops) == Run(s1, [Tick, Give(a), Take(b), Reclaim]);
    assert [Tick, Give(a), Take(b), Reclaim][1..] == [Give(a), Take(b), Reclaim];
    assert Run(s1, [Tick, Give(a), Take(b), Reclaim]) == Run(s2, [Give(a), Take(b), Reclaim]);
    assert [Give(a), Take(b), Reclaim][1..] == [Take(b), Reclaim];
    assert Run(s2, [Give(a), Take(b), Reclaim]) == Run(s3, [Take(b), Reclaim]);
    assert [Take(b), Reclaim][1..] == [Reclaim];
    assert Run(s3, [Take(b), Reclaim]) == Run(s4, [Reclaim]);
    assert [Reclaim][1..] == ops[5..];
    assert Run(s4, [Reclaim]) == s5;
  }

  /** More gives than takes drive inUse to -1; the next run of the control task
      stores the limit -1 and throws before polling. The idle object stays queued
      over the negative limit, the task stops, and a later run of it changes
      nothing while the next give destroys its object. */
  lemma NegativeSampleStopsControlTask<T>(a: T, c: T, b: T)
    ensures var r := Run(Init(), [Take(a), Tick, Give(a), Give(c), Tick]);
      && r.queue == [a]
      && r.maxSize == -1
      && r.stopped
      && r.destroyed == [Some(c)]
      && |r.queue| > r.maxSize
    ensures var r := Run(Init(), [Take(a), Tick, Give(a), Give(c), Tick]);
      var t := Step(Step(r, Give(b)), Tick);
      && t.queue == [a]
      && t.maxSize == -1
      && t.destroyed == [Some(c), Some(b)]
  {
    var ops := [Take(a), Tick, Give(a), Give(c), Tick];
    var s1 := Step(Init(), Take(a));
    assert s1.queue == [] && s1.inUse == 1;
    var s2 := Step(s1, Tick);
    assert s2.maxSize == 1 && s2.queue == [] && !s2.stopped;
    var s3 := Step(s2, Give(a));
    assert s3.queue == [a] && s3.inUse == 0 && s3.destroyed == [];
    var s4 := Step(s3, Give(c));
    assert s4.queue == [a] && s4.inUse == -1 && s4.destroyed == [Some(c)];
    var s5 := Step(s4, Tick);
    assert s5.queue == [a] && s5.maxSize == -1 && s5.stopped && s5.destroyed == [Some(c)];
    assert ops[1..] == [Tick, Give(a), Give(c), Tick];
    assert Run(Init(), ops) == Run(s1, [Tick, Give(a), Give(c), Tick]);
    assert [Tick, Give(a), Give(c), Tick][1..] == [Give(a), Give(c), Tick];
    assert Run(s1, [Tick, Give(a), Give(c), Tick]) == Run(s2, [Give(a), Give(c), Tick]);
    assert [Give(a), Give(c), Tick][1..] == [Give(c), Tick];
    assert Run(s2, [Give(a), Give(c), Tick]) == Run(s3, [Give(c), Tick]);
    assert [Give(c), Tick][1..] == [Tick];
    assert Run(s3, [Give(c), Tick]) == Run(s4, [Tick]);
    assert [Tick][1..] == ops[5..];
    assert Run(s4, [Tick]) == s5;
  }
}
