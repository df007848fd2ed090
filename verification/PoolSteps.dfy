/** `ThreadPool` over `ThreadSafeQueue` as interleaved steps: workers sleep on a condition
    variable, tasks submit tasks, and the destructor stops the queue and joins. */
module PoolSteps {
  type Task = nat

  /** What a thread is about to do: test the condition of `waitAndPop` under the lock, on
      entry or after a wakeup; or it is blocked in `wait`; or in a task; or returned. */
  datatype Worker = Ready | Asleep | Running(task: Task) | Exited

  /** `submitted`, `dequeued` and `finished` are history: the tasks in the order of their
      pushes, pops and returns. */
  datatype State = State(
    queue: seq<Task>,
    stop: bool,
    notified: bool,
    workers: seq<Worker>,
    submitted: seq<Task>,
    dequeued: seq<Task>,
    finished: seq<Task>)

  /** `woken` is the sleeper that `notify_one` picks, -1 if nobody sleeps. `Submit` comes
      from outside the pool, `Resubmit` from the task that worker `i` runs. */
  datatype Step =
    | Submit(t: Task, woken: int)
    | Resubmit(i: nat, t: Task, woken: int)
    | Acquire(i: nat)
    | Finish(i: nat)
    | Spurious(i: nat)
    | Stop
    | NotifyAll

  function Init(threads: nat): State {
    State([], false, false, seq(threads, _ => Ready), [], [], [])
  }

  predicate Picked(s: State, woken: int) {
    if 0 <= woken < |s.workers| then s.workers[woken] == Asleep
    else woken == -1 && Asleep !in s.workers
  }

  predicate Enabled(s: State, step: Step) {
    match step
    case Submit(_, woken) => !s.stop && Picked(s, woken)
    case Resubmit(i, _, woken) => i < |s.workers| && s.workers[i].Running? && Picked(s, woken)
    case Acquire(i) => i < |s.workers| && s.workers[i] == Ready
    case Finish(i) => i < |s.workers| && s.workers[i].Running?
    case Spurious(i) => i < |s.workers| && s.workers[i] == Asleep
    case Stop => !s.stop
    case NotifyAll => s.stop && !s.notified
  }

  function Push(s: State, t: Task, woken: int): State
    requires Picked(s, woken)
  {
    s.(queue := s.queue + [t], submitted := s.submitted + [t],
       workers := if woken == -1 then s.workers else s.workers[woken := Ready])
  }

  /** The locked part of `waitAndPop`: the test, and the pop if there is something. */
  function DoAcquire(s: State, i: nat): State
    requires Enabled(s, Acquire(i))
  {
    if s.queue == [] && !s.stop then s.(workers := s.workers[i := Asleep])
    else if s.queue == [] then s.(workers := s.workers[i := Exited])
    else s.(
      workers := s.workers[i := Running(s.queue[0])],
      queue := s.queue[1..], dequeued := s.dequeued + [s.queue[0]])
  }

  function Awake(w: Worker): Worker {
    if w == Asleep then Ready else w
  }

  function Do(s: State, step: Step): State
    requires Enabled(s, step)
  {
    match step
    case Submit(t, woken) => Push(s, t, woken)
    case Resubmit(_, t, woken) => Push(s, t, woken)
    case Acquire(i) => DoAcquire(s, i)
    case Finish(i) => s.(workers := s.workers[i := Ready], finished := s.finished + [s.workers[i].task])
    case Spurious(i) => s.(workers := s.workers[i := Ready])
    case Stop => s.(stop := true)
    case NotifyAll =>
      s.(workers := seq(|s.workers|, i requires 0 <= i < |s.workers| => Awake(s.workers[i])), notified := true)
  }

  predicate CanRun(s: State, steps: seq<Step>)
    decreases |steps|
  {
    steps == [] || (Enabled(s, steps[0]) && CanRun(Do(s, steps[0]), steps[1..]))
  }

  function Run(s: State, steps: seq<Step>): State
    requires CanRun(s, steps)
    decreases |steps|
  {
    if steps == [] then s else Run(Do(s, steps[0]), steps[1..])
  }

  /** Which workers a step moves, and where to: a push wakes one sleeper at most, a pop
      takes the first task, and only `notify_all` wakes them all. */
  lemma StepMoves(s: State, step: Step, k: nat)
    requires Enabled(s, step) && k < |s.workers|
    ensures
      var t := Do(s, step);
      && |t.workers| == |s.workers|
      && t.workers[k] ==
         match step
         case Submit(_, woken) => if k == woken then Ready else s.workers[k]
         case Resubmit(_, _, woken) => if k == woken then Ready else s.workers[k]
         case Acquire(i) =>
           if k != i then s.workers[k]
           else if s.queue != [] then Running(s.queue[0])
           else if s.stop then Exited else Asleep
         case Finish(i) => if k == i then Ready else s.workers[k]
         case Spurious(i) => if k == i then Ready else s.workers[k]
         case Stop => s.workers[k]
         case NotifyAll => if s.workers[k] == Asleep then Ready else s.workers[k]
    ensures
      var t := Do(s, step);
      && t.stop == (s.stop || step.Stop?) && t.notified == (s.notified || step.NotifyAll?)
      && t.queue ==
         match step
         case Submit(task, _) => s.queue + [task]
         case Resubmit(_, task, _) => s.queue + [task]
         case Acquire(_) => if s.queue == [] then [] else s.queue[1..]
         case _ => s.queue
  {
  }

  // ---- counting workers ----

  function Sum(ws: seq<Worker>, f: Worker -> nat): nat {
    if ws == [] then 0 else f(ws[0]) + Sum(ws[1..], f)
  }

  lemma {:induction false} SumUpdate(ws: seq<Worker>, i: nat, w: Worker, f: Worker -> nat)
    requires i < |ws|
    ensures Sum(ws[i := w], f) + f(ws[i]) == Sum(ws, f) + f(w)
  {
    if i == 0 {
      assert ws[0 := w][1..] == ws[1..];
    } else {
      SumUpdate(ws[1..], i - 1, w, f);
      assert ws[i := w][1..] == ws[1..][i - 1 := w];
    }
  }

  lemma {:induction false} SumZero(ws: seq<Worker>, f: Worker -> nat)
    ensures Sum(ws, f) == 0 <==> forall i :: 0 <= i < |ws| ==> f(ws[i]) == 0
  {
    if ws != [] {
      SumZero(ws[1..], f);
      assert (forall i :: 0 <= i < |ws| ==> f(ws[i]) == 0) <==>
             (f(ws[0]) == 0 && forall i :: 0 <= i < |ws[1..]| ==> f(ws[1..][i]) == 0) by {
        if f(ws[0]) == 0 && forall i :: 0 <= i < |ws[1..]| ==> f(ws[1..][i]) == 0 {
          forall i | 0 <= i < |ws| ensures f(ws[i]) == 0 {
            assert i > 0 ==> ws[i] == ws[1..][i - 1];
          }
        }
      }
    }
  }

  function IsReady(w: Worker): nat {
    if w == Ready then 1 else 0
  }

  function NumReady(s: State): nat {
    Sum(s.workers, IsReady)
  }

  function Runs(t: Task): Worker -> nat {
    (w: Worker) => if w == Running(t) then 1 else 0
  }

  // ---- the invariant ----

  /** How often `t` has been popped, returned, and is being run. */
  ghost predicate Accounted(s: State) {
    forall t ::
      multiset(s.dequeued)[t] == multiset(s.finished)[t] + Sum(s.workers, Runs(t))
  }

  /** No wakeup is lost, and nobody leaves work behind. */
  predicate Awakened(s: State) {
    && (Asleep in s.workers ==> |s.queue| <= NumReady(s) && !s.notified)
    && (s.notified ==> s.stop)
    && (Exited in s.workers ==> s.stop)
    && (s.queue != [] && s.workers != [] ==> exists i :: 0 <= i < |s.workers| && s.workers[i] != Exited)
  }

  ghost predicate Inv(s: State) {
    s.submitted == s.dequeued + s.queue && Accounted(s) && Awakened(s)
  }

  lemma AccountedPush(s: State, t: Task, woken: int)
    requires Accounted(s) && Picked(s, woken)
    ensures Accounted(Push(s, t, woken))
  {
    if woken != -1 {
      forall r ensures Sum(Push(s, t, woken).workers, Runs(r)) == Sum(s.workers, Runs(r)) {
        SumUpdate(s.workers, woken, Ready, Runs(r));
      }
    }
  }

  lemma AccountedAcquire(s: State, i: nat)
    requires Accounted(s) && Enabled(s, Acquire(i))
    ensures Accounted(DoAcquire(s, i))
  {
    var u := DoAcquire(s, i);
    forall r ensures multiset(u.dequeued)[r] == multiset(u.finished)[r] + Sum(u.workers, Runs(r)) {
      SumUpdate(s.workers, i, u.workers[i], Runs(r));
    }
  }

  lemma AccountedFinish(s: State, i: nat)
    requires Accounted(s) && Enabled(s, Finish(i))
    ensures Accounted(Do(s, Finish(i)))
  {
    var u := Do(s, Finish(i));
    forall r ensures multiset(u.dequeued)[r] == multiset(u.finished)[r] + Sum(u.workers, Runs(r)) {
      SumUpdate(s.workers, i, Ready, Runs(r));
    }
  }

  lemma AccountedSpurious(s: State, i: nat)
    requires Accounted(s) && Enabled(s, Spurious(i))
    ensures Accounted(Do(s, Spurious(i)))
  {
    forall r ensures Sum(s.workers[i := Ready], Runs(r)) == Sum(s.workers, Runs(r)) {
      SumUpdate(s.workers, i, Ready, Runs(r));
    }
  }

  lemma {:induction false} SumAwake(ws: seq<Worker>, vs: seq<Worker>, t: Task)
    requires |ws| == |vs| && forall i :: 0 <= i < |ws| ==> vs[i] == Awake(ws[i])
    ensures Sum(vs, Runs(t)) == Sum(ws, Runs(t))
  {
    if ws != [] {
      SumAwake(ws[1..], vs[1..], t);
    }
  }

  lemma AccountedNotify(s: State)
    requires Accounted(s) && Enabled(s, NotifyAll)
    ensures Accounted(Do(s, NotifyAll))
  {
    forall r ensures Sum(Do(s, NotifyAll).workers, Runs(r)) == Sum(s.workers, Runs(r)) {
      SumAwake(s.workers, Do(s, NotifyAll).workers, r);
    }
  }

  /** Replacing the state of worker `i` by `w`. */
  lemma AwakenedSet(s: State, i: nat, w: Worker, u: State)
    requires Awakened(s) && i < |s.workers| && u.workers == s.workers[i := w]
    requires u.stop == s.stop && u.notified == s.notified
    requires w == Exited ==> s.stop && u.queue == []
    requires w == Asleep ==> !s.stop && u.queue == []
    requires u.queue != [] ==> |u.queue| + IsReady(s.workers[i]) <= |s.queue| + IsReady(w)
    requires s.queue != [] || u.queue == [] || w != Exited
    ensures Awakened(u)
  {
    SumUpdate(s.workers, i, w, IsReady);
    assert forall v :: v in u.workers ==> v in s.workers || v == w;
    if u.queue != [] {
      assert u.workers[i] != Exited;
    }
  }

  lemma AwakenedPush(s: State, t: Task, woken: int)
    requires Awakened(s) && Picked(s, woken)
    requires s.workers != [] ==> exists i :: 0 <= i < |s.workers| && s.workers[i] != Exited
    ensures Awakened(Push(s, t, woken))
  {
    if woken != -1 {
      AwakenedSet(s, woken, Ready, Push(s, t, woken));
    }
  }

  lemma AwakenedStep(s: State, step: Step)
    requires Awakened(s) && Enabled(s, step)
    ensures Awakened(Do(s, step))
  {
    var u := Do(s, step);
    match step
    case Submit(t, woken) =>
      assert s.workers != [] ==> s.workers[0] != Exited;
      AwakenedPush(s, t, woken);
    case Resubmit(_, t, woken) => AwakenedPush(s, t, woken);
    case Acquire(i) => AwakenedSet(s, i, u.workers[i], u);
    case Finish(i) => AwakenedSet(s, i, Ready, u);
    case Spurious(i) => AwakenedSet(s, i, Ready, u);
    case Stop =>
    case NotifyAll =>
      if s.queue != [] && s.workers != [] {
        var i :| 0 <= i < |s.workers| && s.workers[i] != Exited;
        assert u.workers[i] != Exited;
      }
  }

  lemma InvStep(s: State, step: Step)
    requires Inv(s) && Enabled(s, step)
    ensures Inv(Do(s, step))
  {
    hide Accounted, Awakened;
    AwakenedStep(s, step);
    match step
    case Submit(t, woken) => AccountedPush(s, t, woken);
    case Resubmit(_, t, woken) => AccountedPush(s, t, woken);
    case Acquire(i) => AccountedAcquire(s, i);
    case Finish(i) => AccountedFinish(s, i);
    case Spurious(i) => AccountedSpurious(s, i);
    case Stop => AccountedSame(s, Do(s, step));
    case NotifyAll => AccountedNotify(s);
  }

  lemma AccountedSame(s: State, u: State)
    requires Accounted(s) && u.workers == s.workers && u.dequeued == s.dequeued && u.finished == s.finished
    ensures Accounted(u)
  {
  }

  lemma {:induction false} InvInit(threads: nat)
    ensures Inv(Init(threads)) && |Init(threads).workers| == threads
  {
    if threads > 0 {
      InvInit(threads - 1);
      assert Init(threads).workers[1..] == Init(threads - 1).workers;
    }
  }

  lemma {:induction false} InvRun(s: State, steps: seq<Step>)
    requires Inv(s) && CanRun(s, steps)
    ensures Inv(Run(s, steps)) && |Run(s, steps).workers| == |s.workers|
    decreases |steps|
  {
    if steps != [] {
      InvStep(s, steps[0]);
      InvRun(Do(s, steps[0]), steps[1..]);
    }
  }

  // ---- what holds of every run ----

  /** At any time the tasks popped are the first ones pushed, in the order of the pushes;
      and what was popped has been run once or is being run. */
  lemma FirstInFirstOut(threads: nat, steps: seq<Step>)
    requires CanRun(Init(threads), steps)
    ensures
      var s := Run(Init(threads), steps);
      && s.submitted == s.dequeued + s.queue
      && forall t :: multiset(s.dequeued)[t] == multiset(s.finished)[t] + Sum(s.workers, Runs(t))
  {
    InvInit(threads);
    InvRun(Init(threads), steps);
  }

  /** While somebody sleeps there is an awake worker to each queued task, so tasks never
      wait with every remaining worker asleep. */
  lemma NoLostWakeup(threads: nat, steps: seq<Step>)
    requires CanRun(Init(threads), steps)
    ensures
      var s := Run(Init(threads), steps);
      && (Asleep in s.workers ==> |s.queue| <= NumReady(s))
      && (s.queue != [] && threads > 0 ==>
            exists i :: 0 <= i < |s.workers| && (s.workers[i] == Ready || s.workers[i].Running?))
  {
    InvInit(threads);
    InvRun(Init(threads), steps);
    var s := Run(Init(threads), steps);
    if s.queue != [] && threads > 0 {
      var i :| 0 <= i < |s.workers| && s.workers[i] != Exited;
      if s.workers[i] == Asleep {
        SumZero(s.workers, IsReady);
      }
    }
  }

  /** When all threads of a pool that has any are joined, every task that was ever
      submitted, by whomever, has been run exactly once, dequeued in the order of the
      pushes. */
  lemma AllTasksRun(threads: nat, steps: seq<Step>)
    requires threads > 0 && CanRun(Init(threads), steps)
    requires forall i :: 0 <= i < |Run(Init(threads), steps).workers| ==> Run(Init(threads), steps).workers[i] == Exited
    ensures
      var s := Run(Init(threads), steps);
      s.queue == [] && s.dequeued == s.submitted && multiset(s.finished) == multiset(s.submitted)
  {
    InvInit(threads);
    InvRun(Init(threads), steps);
    var s := Run(Init(threads), steps);
    forall t ensures multiset(s.finished)[t] == multiset(s.submitted)[t] {
      SumZero(s.workers, Runs(t));
    }
  }

  /** A pool without threads joins at once and leaves its tasks. */
  lemma NoThreadsNoRun(t: Task)
    ensures
      var steps := [Submit(t, -1), Stop, NotifyAll];
      CanRun(Init(0), steps) && Run(Init(0), steps).workers == [] && Run(Init(0), steps).queue == [t]
  {
    var s1 := Do(Init(0), Submit(t, -1));
    var s2 := Do(s1, Stop);
    var s3 := Do(s2, NotifyAll);
    assert CanRun(s3, []) && Run(s3, []) == s3;
    assert CanRun(s2, [NotifyAll]) && Run(s2, [NotifyAll]) == s3;
    assert [Stop, NotifyAll][1..] == [NotifyAll];
    assert CanRun(s1, [Stop, NotifyAll]) && Run(s1, [Stop, NotifyAll]) == s3;
    assert [Submit(t, -1), Stop, NotifyAll][1..] == [Stop, NotifyAll];
  }

  // ---- the destructor returns ----

  function Weigh(w: Worker): nat {
    if w.Running? then 2 else if w == Exited then 0 else 1
  }

  /** The steps left until everybody has returned, if nothing more is submitted. */
  function Potential(s: State): nat {
    2 * |s.queue| + Sum(s.workers, Weigh)
  }

  function Pushes(steps: seq<Step>): nat {
    if steps == [] then 0 else (if steps[0].Resubmit? then 1 else 0) + Pushes(steps[1..])
  }

  lemma NobodySleeps(s: State)
    requires Inv(s) && s.notified
    ensures forall i :: 0 <= i < |s.workers| ==> s.workers[i] != Asleep
  {
    assert Asleep !in s.workers;
  }

  lemma DrainStep(s: State, step: Step)
    requires Inv(s) && s.notified && Enabled(s, step)
    ensures Do(s, step).notified
    ensures Potential(Do(s, step)) == if step.Resubmit? then Potential(s) + 2 else Potential(s) - 1
  {
    NobodySleeps(s);
    match step
    case Acquire(i) => SumUpdate(s.workers, i, Do(s, step).workers[i], Weigh);
    case Finish(i) => SumUpdate(s.workers, i, Ready, Weigh);
    case _ =>
  }

  /** After `notify_all` the pool makes exactly `Potential` steps more, and three to each
      task that a task submits meanwhile; when it can make no step, all have returned. So
      the join ends if the tasks return and submit finitely many others. */
  lemma {:induction false} JoinEnds(s: State, steps: seq<Step>)
    requires Inv(s) && s.notified && CanRun(s, steps)
    ensures |steps| + Potential(Run(s, steps)) == Potential(s) + 3 * Pushes(steps)
    ensures (forall step :: !Enabled(Run(s, steps), step)) <==>
            (forall i :: 0 <= i < |Run(s, steps).workers| ==> Run(s, steps).workers[i] == Exited)
    decreases |steps|
  {
    if steps == [] {
      NobodySleeps(s);
      if forall step :: !Enabled(s, step) {
        forall i | 0 <= i < |s.workers| ensures s.workers[i] == Exited {
          assert !Enabled(s, Acquire(i)) && !Enabled(s, Finish(i));
        }
      }
    } else {
      DrainStep(s, steps[0]);
      InvStep(s, steps[0]);
      JoinEnds(Do(s, steps[0]), steps[1..]);
    }
  }
}
