/** `ThreadSafeQueue` and `ThreadPool` with their fields; each method is what one thread
    does while it holds the queue's lock, or one thread's step outside it. */
module ThreadPools {
  import opened PoolSteps

  /** What a thread that tests the condition of `waitAndPop` finds. */
  datatype Polled<T> = Blocked | Stopped | Popped(value: T)

  class ThreadSafeQueue<T> {
    var data: seq<T>
    var stop: bool

    constructor ()
      ensures data == [] && !stop
    {
      data, stop := [], false;
    }

    method Push(v: T)
      modifies this
      ensures data == old(data) + [v] && stop == old(stop)
    {
      data := data + [v];
    }

    /** `waitAndPop` from the test of the condition on: it blocks exactly when there is
        nothing and no stop, and gives up exactly when there is nothing and a stop. */
    method Poll() returns (r: Polled<T>)
      modifies this
      ensures stop == old(stop)
      ensures r.Blocked? <==> old(data) == [] && !stop
      ensures r.Stopped? <==> old(data) == [] && stop
      ensures if r.Popped? then old(data) == [r.value] + data else data == old(data)
    {
      if |data| == 0 && !stop {
        return Blocked;
      }
      if |data| == 0 {
        return Stopped;
      }
      r := Popped(data[0]);
      data := data[1..];
    }

    method Stop()
      modifies this
      ensures stop && data == old(data)
    {
      stop := true;
    }
  }

  class ThreadPool {
    const tasks: ThreadSafeQueue<Task>
    var workers: seq<Worker>
    ghost var notified: bool
    ghost var submitted: seq<Task>
    ghost var dequeued: seq<Task>
    ghost var finished: seq<Task>

    ghost function Now(): State
      reads this, tasks
    {
      State(tasks.data, tasks.stop, notified, workers, submitted, dequeued, finished)
    }

    constructor (threads: nat)
      ensures Now() == Init(threads) && Inv(Now()) && fresh(tasks)
    {
      tasks := new ThreadSafeQueue<Task>();
      workers := seq(threads, _ => Ready);
      notified, submitted, dequeued, finished := false, [], [], [];
      new;
      InvInit(threads);
      assert Now() == Init(threads);
    }

    /** `submit`, from outside the pool. */
    method Submit(t: Task, woken: int)
      requires Inv(Now()) && Enabled(Now(), PoolSteps.Submit(t, woken))
      modifies this, tasks
      ensures Inv(Now()) && Now() == Do(old(Now()), PoolSteps.Submit(t, woken))
    {
      InvStep(Now(), PoolSteps.Submit(t, woken));
      PushAndNotify(t, woken);
    }

    /** `submit`, from the task that worker `i` runs. */
    method Resubmit(i: nat, t: Task, woken: int)
      requires Inv(Now()) && Enabled(Now(), PoolSteps.Resubmit(i, t, woken))
      modifies this, tasks
      ensures Inv(Now()) && Now() == Do(old(Now()), PoolSteps.Resubmit(i, t, woken))
    {
      InvStep(Now(), PoolSteps.Resubmit(i, t, woken));
      PushAndNotify(t, woken);
    }

    method PushAndNotify(t: Task, woken: int)
      requires Picked(Now(), woken)
      modifies this, tasks
      ensures Now() == PoolSteps.Push(old(Now()), t, woken)
    {
      tasks.Push(t);
      submitted := submitted + [t];
      if woken != -1 {
        workers := workers[woken := Ready];
      }
    }

    /** The head of the worker's loop. */
    method Acquire(i: nat)
      requires Inv(Now()) && Enabled(Now(), PoolSteps.Acquire(i))
      modifies this, tasks
      ensures Inv(Now()) && Now() == Do(old(Now()), PoolSteps.Acquire(i))
    {
      hide Inv;
      InvStep(Now(), PoolSteps.Acquire(i));
      ghost var was := tasks.data;
      var r := tasks.Poll();
      match r
      case Blocked => workers := workers[i := Asleep];
      case Stopped => workers := workers[i := Exited];
      case Popped(t) =>
        workers := workers[i := Running(t)];
        dequeued := dequeued + [t];
        assert was[0] == t && was[1..] == tasks.data;
    }

    method Finish(i: nat)
      requires Inv(Now()) && Enabled(Now(), PoolSteps.Finish(i))
      modifies this
      ensures Inv(Now()) && Now() == Do(old(Now()), PoolSteps.Finish(i))
    {
      InvStep(Now(), PoolSteps.Finish(i));
      finished := finished + [workers[i].task];
      workers := workers[i := Ready];
    }

    method Spurious(i: nat)
      requires Inv(Now()) && Enabled(Now(), PoolSteps.Spurious(i))
      modifies this
      ensures Inv(Now()) && Now() == Do(old(Now()), PoolSteps.Spurious(i))
    {
      InvStep(Now(), PoolSteps.Spurious(i));
      workers := workers[i := Ready];
    }

    /** The destructor up to the join. */
    method Stop()
      requires Inv(Now()) && Enabled(Now(), PoolSteps.Stop)
      modifies tasks
      ensures Inv(Now()) && Now() == Do(old(Now()), PoolSteps.Stop)
    {
      InvStep(Now(), PoolSteps.Stop);
      tasks.Stop();
    }

    method NotifyAll()
      requires Inv(Now()) && Enabled(Now(), PoolSteps.NotifyAll)
      modifies this
      ensures Inv(Now()) && Now() == Do(old(Now()), PoolSteps.NotifyAll)
    {
      InvStep(Now(), PoolSteps.NotifyAll);
      workers := seq(|workers|, i requires 0 <= i < |workers| reads this => Awake(workers[i]));
      notified := true;
      assert workers == Do(old(Now()), PoolSteps.NotifyAll).workers;
    }
  }
}
