/** The response tasks of `RPCServer`: any number of them, on any threads, send their
    frames to one client, each holding the client's write lock across `sendProtocol`. */
module ResponseTasks {
  import opened Bytes

  /** Where a task is in its lambda: not yet started; at the head of the loop of
      `writeFixSize` with `k` bytes sent, holding the lock; past the test of the
      connected flag, about to call `sendmsg`; returned. */
  datatype Phase = Waiting | AtLoop(k: nat) | Armed(k: nat) | Returned

  datatype Task = Task(frame: bytes, phase: Phase)

  /** `wire` is what the socket has taken. The history variables `order` and `cut` tell
      which tasks got their frame out whole, and what a failing one left behind. */
  datatype State = State(
    tasks: seq<Task>,
    holder: int,  // index of the task that holds the lock, or -1
    connected: bool,
    wire: bytes,
    order: seq<nat>,
    cut: bytes)

  datatype Step =
    | Submit(frame: bytes)
    | Lock(i: nat)
    | Test(i: nat)
    | Send(i: nat, n: nat)
    | SendFails(i: nat)
    | Finish(i: nat)
    | Disconnect

  const Init := State([], -1, true, [], [], [])

  predicate Enabled(s: State, step: Step) {
    match step
    case Submit(_) => true
    case Lock(i) => i < |s.tasks| && s.tasks[i].phase == Waiting && s.holder == -1
    case Test(i) => i < |s.tasks| && s.tasks[i].phase.AtLoop? && s.tasks[i].phase.k < |s.tasks[i].frame|
    case Send(i, n) =>
      i < |s.tasks| && s.tasks[i].phase.Armed? && 0 < n && s.tasks[i].phase.k + n <= |s.tasks[i].frame|
    case SendFails(i) => i < |s.tasks| && s.tasks[i].phase.Armed?
    case Finish(i) => i < |s.tasks| && s.tasks[i].phase.AtLoop? && s.tasks[i].phase.k >= |s.tasks[i].frame|
    case Disconnect => true
  }

  function Goto(s: State, i: nat, p: Phase): seq<Task>
    requires i < |s.tasks|
  {
    s.tasks[i := s.tasks[i].(phase := p)]
  }

  /** Giving up: the flag is cleared, then the lock is released. */
  function GiveUp(s: State, i: nat): State
    requires i < |s.tasks| && (s.tasks[i].phase.AtLoop? || s.tasks[i].phase.Armed?)
  {
    var sent := s.tasks[i].frame[..Min(s.tasks[i].phase.k, |s.tasks[i].frame|)];
    s.(tasks := Goto(s, i, Returned), holder := -1, connected := false, cut := s.cut + sent)
  }

  function Do(s: State, step: Step): State
    requires Enabled(s, step)
  {
    match step
    case Submit(f) => s.(tasks := s.tasks + [Task(f, Waiting)])
    case Lock(i) => s.(tasks := Goto(s, i, AtLoop(0)), holder := i)
    case Test(i) =>
      if s.connected then s.(tasks := Goto(s, i, Armed(s.tasks[i].phase.k))) else GiveUp(s, i)
    case Send(i, n) =>
      var k := s.tasks[i].phase.k;
      s.(tasks := Goto(s, i, AtLoop(k + n)), wire := s.wire + s.tasks[i].frame[k..k + n])
    case SendFails(i) => GiveUp(s, i)
    case Finish(i) => s.(tasks := Goto(s, i, Returned), holder := -1, order := s.order + [i])
    case Disconnect => s.(connected := false)
  }

  predicate CanRun(s: State, steps: seq<Step>)
    decreases |steps|
  {
    steps == [] || (Enabled(s, steps[0]) && CanRun(Do(s, steps[0]), steps[1..]))
  }

  function Run(s: State, steps: seq<Step>): State
    requires CanRun(s, steps)
    decreases |steps|
  {
    if steps == [] then s else Run(Do(s, steps[0]), steps[1..])
  }

  // ---- the invariant ----

  /** The frames of the tasks `order`, one after the other. */
  function Frames(tasks: seq<Task>, order: seq<nat>): bytes
    requires forall j :: 0 <= j < |order| ==> order[j] < |tasks|
  {
    if order == [] then []
    else Frames(tasks, order[..|order| - 1]) + tasks[order[|order| - 1]].frame
  }

  /** What the holder of the lock has sent of its frame. */
  function InFlight(s: State): bytes {
    if 0 <= s.holder < |s.tasks| && (s.tasks[s.holder].phase.AtLoop? || s.tasks[s.holder].phase.Armed?)
    then s.tasks[s.holder].frame[..Min(s.tasks[s.holder].phase.k, |s.tasks[s.holder].frame|)] else []
  }

  /** Only the holder is inside the critical section. */
  predicate Exclusive(s: State) {
    && -1 <= s.holder < |s.tasks|
    && (forall i :: 0 <= i < |s.tasks| ==>
          ((s.tasks[i].phase.AtLoop? || s.tasks[i].phase.Armed?) <==> i == s.holder))
    && (s.holder >= 0 ==>
          s.tasks[s.holder].phase.k <= |s.tasks[s.holder].frame|
          && (s.tasks[s.holder].phase.Armed? ==> s.tasks[s.holder].phase.k < |s.tasks[s.holder].frame|))
  }

  /** Each task sends its frame at most once. */
  predicate Once(s: State) {
    && (forall j :: 0 <= j < |s.order| ==> s.order[j] < |s.tasks| && s.tasks[s.order[j]].phase == Returned)
    && (forall j, k :: 0 <= j < k < |s.order| ==> s.order[j] != s.order[k])
  }

  predicate Inv(s: State) {
    && Exclusive(s) && Once(s)
    // a cut-off frame is the end
    && (s.cut != [] ==> !s.connected && InFlight(s) == [] && (s.holder >= 0 ==> s.tasks[s.holder].phase.AtLoop?))
    && (s.cut != [] ==> exists i :: 0 <= i < |s.tasks| && IsCutOff(s.cut, s.tasks[i].frame))
    && s.wire == Frames(s.tasks, s.order) + s.cut + InFlight(s)
  }

  predicate IsCutOff(part: bytes, frame: bytes) {
    part <= frame && part != frame
  }

  lemma {:induction false} FramesUnchanged(a: seq<Task>, b: seq<Task>, order: seq<nat>)
    requires |a| <= |b| && forall i :: 0 <= i < |a| ==> a[i].frame == b[i].frame
    requires forall j :: 0 <= j < |order| ==> order[j] < |a|
    ensures Frames(a, order) == Frames(b, order)
  {
    if order != [] {
      FramesUnchanged(a, b, order[..|order| - 1]);
    }
  }

  lemma InvSubmit(s: State, f: bytes)
    requires Inv(s)
    ensures Inv(Do(s, Submit(f)))
  {
    var t := Do(s, Submit(f));
    FramesUnchanged(s.tasks, t.tasks, s.order);
    assert forall i :: 0 <= i < |s.tasks| ==> t.tasks[i] == s.tasks[i];
    assert InFlight(t) == InFlight(s);
  }

  lemma InvLock(s: State, i: nat)
    requires Inv(s) && Enabled(s, Lock(i))
    ensures Inv(Do(s, Lock(i)))
  {
    var t := Do(s, Lock(i));
    FramesUnchanged(s.tasks, t.tasks, s.order);
    assert InFlight(t) == [];
    KeepsCutOff(s, t);
  }

  lemma KeepsCutOff(s: State, t: State)
    requires Inv(s) && |s.tasks| <= |t.tasks| && t.cut == s.cut
    requires forall i :: 0 <= i < |s.tasks| ==> s.tasks[i].frame == t.tasks[i].frame
    ensures t.cut != [] ==> exists i :: 0 <= i < |t.tasks| && IsCutOff(t.cut, t.tasks[i].frame)
  {
    if t.cut != [] {
      var i :| 0 <= i < |s.tasks| && IsCutOff(s.cut, s.tasks[i].frame);
      assert IsCutOff(t.cut, t.tasks[i].frame);
    }
  }

  lemma SentMore(a: bytes, cut: bytes, f: bytes, k: nat, n: nat)
    requires k + n <= |f|
    ensures a + cut + f[..k] + f[k..k + n] == a + cut + f[..k + n]
  {
  }

  lemma InvSend(s: State, i: nat, n: nat)
    requires Inv(s) && Enabled(s, Send(i, n))
    ensures Inv(Do(s, Send(i, n)))
  {
    var t := Do(s, Send(i, n));
    var f, k := s.tasks[i].frame, s.tasks[i].phase.k;
    FramesUnchanged(s.tasks, t.tasks, s.order);
    assert s.cut == [];
    assert InFlight(s) == f[..k] && InFlight(t) == f[..k + n];
    SentMore(Frames(s.tasks, s.order), s.cut, f, k, n);
  }

  lemma Regroup(a: bytes, b: bytes, c: bytes)
    ensures a + b + c == a + (b + c) + []
  {
  }

  lemma InvGiveUp(s: State, i: nat)
    requires Inv(s) && i == s.holder && s.tasks[i].phase.k < |s.tasks[i].frame|
    requires s.tasks[i].phase.Armed? || !s.connected
    ensures Inv(GiveUp(s, i))
  {
    var t := GiveUp(s, i);
    var sent := InFlight(s);
    FramesUnchanged(s.tasks, t.tasks, s.order);
    assert t.cut == s.cut + sent && InFlight(t) == [];
    Regroup(Frames(s.tasks, s.order), s.cut, sent);
    if sent == [] {
      assert t.cut == s.cut;
      KeepsCutOff(s, t);
    } else {
      assert s.cut == [] && t.cut == sent;
      assert IsCutOff(sent, t.tasks[i].frame);
    }
  }

  lemma Finished(a: bytes, cut: bytes, f: bytes)
    requires cut == [] || f == []
    ensures a + cut + f == (a + f) + cut + []
  {
  }

  lemma FramesOneMore(tasks: seq<Task>, order: seq<nat>, i: nat)
    requires i < |tasks| && forall j :: 0 <= j < |order| ==> order[j] < |tasks|
    ensures Frames(tasks, order + [i]) == Frames(tasks, order) + tasks[i].frame
  {
    assert (order + [i])[..|order|] == order;
  }

  lemma FinishOnce(s: State, i: nat)
    requires Exclusive(s) && Once(s) && Enabled(s, Finish(i))
    ensures Exclusive(Do(s, Finish(i))) && Once(Do(s, Finish(i)))
    ensures InFlight(s) == s.tasks[i].frame && InFlight(Do(s, Finish(i))) == []
  {
  }

  lemma InvFinish(s: State, i: nat)
    requires Inv(s) && Enabled(s, Finish(i))
    ensures Inv(Do(s, Finish(i)))
  {
    hide Frames, IsCutOff, InFlight, Exclusive;
    var t := Do(s, Finish(i));
    FramesUnchanged(s.tasks, t.tasks, s.order);
    FramesOneMore(t.tasks, s.order, i);
    FinishOnce(s, i);
    Finished(Frames(s.tasks, s.order), s.cut, s.tasks[i].frame);
    KeepsCutOff(s, t);
  }

  lemma InvStep(s: State, step: Step)
    requires Inv(s) && Enabled(s, step)
    ensures Inv(Do(s, step))
  {
    match step
    case Submit(f) => InvSubmit(s, f);
    case Lock(i) => InvLock(s, i);
    case Test(i) =>
      if s.connected {
        var t := Do(s, step);
        FramesUnchanged(s.tasks, t.tasks, s.order);
        assert InFlight(t) == InFlight(s);
      } else {
        InvGiveUp(s, i);
      }
    case Send(i, n) => InvSend(s, i, n);
    case SendFails(i) => InvGiveUp(s, i);
    case Finish(i) => InvFinish(s, i);
    case Disconnect =>
      assert InFlight(Do(s, step)) == InFlight(s);
  }

  lemma {:induction false} InvRun(s: State, steps: seq<Step>)
    requires Inv(s) && CanRun(s, steps)
    ensures Inv(Run(s, steps))
    decreases |steps|
  {
    if steps != [] {
      InvStep(s, steps[0]);
      InvRun(Do(s, steps[0]), steps[1..]);
    }
  }

  // ---- what the client receives ----

  /** The wire carries whole frames, each of a different task, followed by at most one
      cut-off frame; and when nobody holds the lock a cut-off frame means that the
      connection is given up. */
  ghost predicate CleanWire(s: State) {
    && (forall j :: 0 <= j < |s.order| ==> s.order[j] < |s.tasks|)
    && (forall j, k :: 0 <= j < k < |s.order| ==> s.order[j] != s.order[k])
    && exists tail ::
      && s.wire == Frames(s.tasks, s.order) + tail
      && (tail == [] || exists i :: 0 <= i < |s.tasks| && tail <= s.tasks[i].frame)
      && (s.holder == -1 && tail != [] ==>
            !s.connected && exists i :: 0 <= i < |s.tasks| && IsCutOff(tail, s.tasks[i].frame))
  }

  lemma InvIsClean(s: State)
    requires Inv(s)
    ensures CleanWire(s)
  {
    hide Frames;
    var tail := s.cut + InFlight(s);
    assert s.wire == Frames(s.tasks, s.order) + tail;
    if s.cut != [] {
      assert tail == s.cut;
      var i :| 0 <= i < |s.tasks| && IsCutOff(s.cut, s.tasks[i].frame);
      assert tail <= s.tasks[i].frame;
    } else if tail != [] {
      assert tail == InFlight(s) && tail <= s.tasks[s.holder].frame;
    }
  }

  /** So it is in every interleaving of response tasks, partial sends, failures and
      disconnections. */
  lemma WholeFramesThenOneCut(steps: seq<Step>)
    requires CanRun(Init, steps)
    ensures CleanWire(Run(Init, steps))
  {
    InitInv();
    hide *;
    InvRun(Init, steps);
    InvIsClean(Run(Init, steps));
  }

  lemma InitInv()
    ensures Inv(Init)
  {
  }

  /** Once a frame is cut off, nothing more is ever sent. */
  lemma {:induction false} SilentAfterCut(s: State, steps: seq<Step>)
    requires Inv(s) && s.cut != [] && CanRun(s, steps)
    ensures Run(s, steps).wire == s.wire
    decreases |steps|
  {
    if steps != [] {
      InvStep(s, steps[0]);
      SilentAfterCut(Do(s, steps[0]), steps[1..]);
    }
  }
}
