/** `AsyncLogger` as interleaved steps: producers fill buffers under a lock, and one
    worker exchanges the filled ones for empty ones and writes them to the file. Every
    buffer is represented by its text. */
module LoggerSteps {
  import opened Buffers
  import opened Bytes
  import opened Chunks

  /** A `unique_ptr` to a buffer: null, or the text of the buffer. */
  datatype Pointer = Null | Owns(text: bytes)

  /** Where the worker is: not started; before the test of `running_state`; past it,
      before it takes the lock; in `wait_for`, the lock released; the lock released after
      the exchange and `i` buffers of the round written; returned. */
  datatype Worker = NotStarted | AtTop | Entering | Asleep | Writing(i: nat) | Returned

  /** The fields, then the worker with its three locals, then what the file holds. */
  datatype State = State(
    cur: Pointer,
    next: Pointer,
    dirty: seq<bytes>,
    running: bool,
    worker: Worker,
    toFile: seq<bytes>,
    spare: Pointer,
    spareNext: Pointer,
    file: bytes)

  /** What may happen next, on any thread: `Append`, `Start` and `Terminate` are calls;
      the others are the worker's. */
  datatype Step = Append(msg: bytes) | Start | Terminate | Test | Enter | Wake | WriteNext | Recycle

  /** `Fails` is a failed assertion or a null pointer dereferenced. */
  datatype Outcome = Goes(state: State) | Fails

  const Init := State(Owns([]), Owns([]), [], false, NotStarted, [], Null, Null, [])

  predicate Enabled(s: State, step: Step) {
    match step
    case Append(_) => true
    case Start => s.worker.NotStarted? || s.worker.Returned?
    case Terminate => s.running
    case Test => s.worker.AtTop?
    case Enter => s.worker.Entering?
    case Wake => s.worker.Asleep?
    case WriteNext => s.worker.Writing? && s.worker.i < |s.toFile|
    case Recycle => s.worker.Writing? && s.worker.i >= |s.toFile|
  }

  /** `Buffer::append`, whose result nobody looks at. */
  function Appended(text: bytes, msg: bytes): bytes {
    if |msg| > LOG_BUFFER_SIZE - |text| then text else text + msg
  }

  function DoAppend(s: State, msg: bytes): Outcome {
    if s.cur.Null? then Fails
    else if LOG_BUFFER_SIZE - |s.cur.text| > |msg| then Goes(s.(cur := Owns(Appended(s.cur.text, msg))))
    else
      var blank := if s.next.Owns? then s.next.text else [];
      Goes(s.(dirty := s.dirty + [s.cur.text], next := Null, cur := Owns(Appended(blank, msg))))
  }

  /** The exchange, under the lock. */
  function Swap(s: State): Outcome {
    if s.cur.Null? then Fails
    else Goes(s.(
      cur := s.spare, spare := Null,
      toFile := s.dirty + [s.cur.text], dirty := s.toFile,
      next := if s.next.Null? then s.spareNext else s.next,
      spareNext := if s.next.Null? then Null else s.spareNext,
      worker := Writing(0)))
  }

  /** The two spares are taken from the back of the list, cut to two buffers. */
  function DoRecycle(s: State): Outcome {
    var bufs := if |s.toFile| > 2 then s.toFile[..2] else s.toFile;
    var needed := (if s.spare.Null? then 1 else 0) + (if s.spareNext.Null? then 1 else 0);
    if |bufs| < needed then Fails
    else Goes(s.(
      spare := if s.spare.Null? then Owns([]) else s.spare,
      spareNext := if s.spareNext.Null? then Owns([]) else s.spareNext,
      toFile := [], worker := AtTop))
  }

  function Do(s: State, step: Step): Outcome
    requires Enabled(s, step)
  {
    match step
    case Append(msg) => DoAppend(s, msg)
    case Start => Goes(s.(running := true, worker := AtTop, toFile := [], spare := Owns([]), spareNext := Owns([])))
    case Terminate => Goes(s.(running := false))
    case Test =>
      if s.running then Goes(s.(worker := Entering))
      else Goes(s.(worker := Returned, toFile := [], spare := Null, spareNext := Null))
    case Enter => if s.cur == Owns([]) then Goes(s.(worker := Asleep)) else Swap(s)
    case Wake => Swap(s)
    case WriteNext => Goes(s.(file := s.file + s.toFile[s.worker.i], worker := Writing(s.worker.i + 1)))
    case Recycle => DoRecycle(s)
  }

  predicate CanRun(s: State, steps: seq<Step>)
    decreases |steps|
  {
    steps == [] || (
      Enabled(s, steps[0]) &&
      var o := Do(s, steps[0]);
      o.Goes? ==> CanRun(o.state, steps[1..]))
  }

  function Run(s: State, steps: seq<Step>): Outcome
    requires CanRun(s, steps)
    decreases |steps|
  {
    if steps == [] then Goes(s)
    else match Do(s, steps[0])
      case Fails => Fails
      case Goes(t) => Run(t, steps[1..])
  }

  // ---- the log ----

  /** What the calls of `append` among `steps` add to the log: a text longer than a whole
      buffer is dropped. */
  function Logged(steps: seq<Step>): bytes {
    if steps == [] then []
    else (if steps[0].Append? && |steps[0].msg| <= LOG_BUFFER_SIZE then steps[0].msg else []) + Logged(steps[1..])
  }

  /** The texts of the round in hand that are not written yet. */
  function Unwritten(s: State): bytes {
    if s.worker.Writing? && s.worker.i <= |s.toFile| then Flat(s.toFile[s.worker.i..]) else []
  }

  /** Everything there is of the log, oldest first. */
  function Everything(s: State): bytes {
    s.file + Unwritten(s) + Flat(s.dirty) + (if s.cur.Owns? then s.cur.text else [])
  }

  // ---- the invariant ----

  predicate Empty(p: Pointer) {
    p.Owns? ==> p.text == []
  }

  /** There is a current buffer; the buffers kept in reserve are empty; a reserve that was
      given away left a buffer in a list; the worker begins a round with both spares. */
  predicate Inv(s: State) {
    && s.cur.Owns? && |s.cur.text| <= LOG_BUFFER_SIZE
    && Empty(s.next) && Empty(s.spare) && Empty(s.spareNext)
    && (s.next.Null? ==> s.dirty != [])
    && match s.worker
       case NotStarted => s.toFile == [] && s.spare.Null? && s.spareNext.Null?
       case Returned => s.toFile == [] && s.spare.Null? && s.spareNext.Null?
       case Writing(i) =>
         && i <= |s.toFile| && s.spare.Null?
         && |s.toFile| >= (if s.spareNext.Null? then 2 else 1)
       case _ => s.toFile == [] && s.spare.Owns? && s.spareNext.Owns?
  }

  lemma AppendKeeps(s: State, msg: bytes)
    requires Inv(s)
    ensures
      var o := DoAppend(s, msg);
      && o.Goes? && Inv(o.state) && o.state.worker == s.worker
      && o.state.file + Unwritten(o.state) == s.file + Unwritten(s)
      && Everything(o.state) == Everything(s) + (if |msg| <= LOG_BUFFER_SIZE then msg else [])
  {
    hide Flat;
    var t := DoAppend(s, msg).state;
    var m := if |msg| <= LOG_BUFFER_SIZE then msg else [];
    assert t.file == s.file && Unwritten(t) == Unwritten(s);
    if LOG_BUFFER_SIZE - |s.cur.text| > |msg| {
      assert t.cur.text == s.cur.text + m;
      Regroup(s.file + Unwritten(s) + Flat(s.dirty), s.cur.text, m);
    } else {
      Dirtied(s.dirty, s.cur.text);
      assert t.cur.text == m;
      Regroup(s.file + Unwritten(s), Flat(s.dirty), s.cur.text);
    }
  }

  lemma Regroup(a: bytes, b: bytes, c: bytes)
    ensures a + b + c == a + (b + c)
  {
  }

  lemma Dirtied(dirty: seq<bytes>, text: bytes)
    ensures Flat(dirty + [text]) == Flat(dirty) + text
  {
    FlatAppend(dirty, [text]);
    FlatOne(text);
  }

  lemma SwapKeeps(s: State)
    requires Inv(s) && (s.worker.Entering? || s.worker.Asleep?)
    ensures
      var o := Swap(s);
      && o.Goes? && Inv(o.state) && Everything(o.state) == Everything(s)
      && o.state.file + Unwritten(o.state) == Everything(s)
  {
    Dirtied(s.dirty, s.cur.text);
    var t := Swap(s).state;
    assert Flat(t.dirty) == [] && t.cur.text == [];
    assert t.toFile[0..] == t.toFile;
    Regroup(s.file, Flat(s.dirty), s.cur.text);
  }

  lemma WriteKeeps(s: State)
    requires Inv(s) && Enabled(s, WriteNext)
    ensures
      var t := Do(s, WriteNext).state;
      Inv(t) && Everything(t) == Everything(s) && t.file + Unwritten(t) == s.file + Unwritten(s)
  {
    var i := s.worker.i;
    assert s.toFile[i..] == [s.toFile[i]] + s.toFile[i + 1..];
    FlatAppend([s.toFile[i]], s.toFile[i + 1..]);
    FlatOne(s.toFile[i]);
  }

  lemma RecycleKeeps(s: State)
    requires Inv(s) && Enabled(s, Recycle)
    ensures
      var o := Do(s, Recycle);
      o.Goes? && Inv(o.state) && Everything(o.state) == Everything(s)
  {
    assert s.toFile[s.worker.i..] == [];
    assert s.file + [] + Flat(s.dirty) == s.file + Flat(s.dirty);
  }

  /** No step fails, and each step adds to the log exactly what it appends. */
  lemma StepKeeps(s: State, step: Step)
    requires Inv(s) && Enabled(s, step)
    ensures
      var o := Do(s, step);
      o.Goes? && Inv(o.state) && Everything(o.state) == Everything(s) + Logged([step])
  {
    hide Flat;
    match step
    case Append(msg) => AppendKeeps(s, msg);
    case Enter =>
      if s.cur != Owns([]) {
        SwapKeeps(s);
      }
    case Wake => SwapKeeps(s);
    case WriteNext => WriteKeeps(s);
    case Recycle => RecycleKeeps(s);
    case _ =>
  }

  /** What an append does: the text stays in the current buffer if that leaves room for one
      byte more, and else starts the next one; a text longer than a buffer is lost. */
  lemma AppendFills(s: State, msg: bytes)
    requires Inv(s)
    ensures Do(s, Append(msg)) ==
      if |s.cur.text| + |msg| < 2048 then Goes(s.(cur := Owns(s.cur.text + msg)))
      else Goes(s.(dirty := s.dirty + [s.cur.text], next := Null, cur := Owns(if |msg| <= 2048 then msg else [])))
  {
    assert [] + msg == msg;
  }

  /** What the worker does. It waits exactly for an empty current buffer; an exchange leaves
      a current and a next buffer, both empty, and takes all others; a buffer written is
      the next one in order; and a round ends with two empty spares and nothing else. */
  lemma WorkerMoves(s: State, step: Step)
    requires Inv(s) && Enabled(s, step) && !step.Append?
    ensures
      var exchanged := s.(
        cur := Owns([]), next := Owns([]), dirty := [], toFile := s.dirty + [s.cur.text], worker := Writing(0),
        spare := Null, spareNext := if s.next.Null? then Null else Owns([]));
      Do(s, step) == Goes(
        match step
        case Start => s.(running := true, worker := AtTop, spare := Owns([]), spareNext := Owns([]))
        case Terminate => s.(running := false)
        case Test =>
          if s.running then s.(worker := Entering) else s.(worker := Returned, spare := Null, spareNext := Null)
        case Enter => if s.cur.text == [] then s.(worker := Asleep) else exchanged
        case Wake => exchanged
        case WriteNext => s.(file := s.file + s.toFile[s.worker.i], worker := Writing(s.worker.i + 1))
        case _ => s.(worker := AtTop, spare := Owns([]), spareNext := Owns([]), toFile := []))
  {
  }

  lemma {:induction false} RunKeeps(s: State, steps: seq<Step>)
    requires Inv(s) && CanRun(s, steps)
    ensures
      var o := Run(s, steps);
      o.Goes? && Inv(o.state) && Everything(o.state) == Everything(s) + Logged(steps)
    decreases |steps|
  {
    if steps != [] {
      StepKeeps(s, steps[0]);
      RunKeeps(Do(s, steps[0]).state, steps[1..]);
    }
  }

  // ---- what holds of every run ----

  /** In every interleaving the assertions hold and the file, the exchanged buffers not
      yet written, the dirty buffers and the current buffer spell, in this order, all that
      was ever appended. */
  lemma NothingLost(steps: seq<Step>)
    requires CanRun(Init, steps)
    ensures
      var o := Run(Init, steps);
      && o.Goes? && o.state.cur.Owns?
      && Logged(steps) == o.state.file + Unwritten(o.state) + Flat(o.state.dirty) + o.state.cur.text
  {
    RunKeeps(Init, steps);
  }

  /** The file is a prefix of the log, whenever one looks. */
  lemma FileIsPrefix(steps: seq<Step>)
    requires CanRun(Init, steps)
    ensures Run(Init, steps).Goes? && Run(Init, steps).state.file <= Logged(steps)
  {
    hide Flat, Logged, Run, CanRun, Unwritten;
    NothingLost(steps);
    var s := Run(Init, steps).state;
    assert Logged(steps) == s.file + (Unwritten(s) + Flat(s.dirty) + s.cur.text);
  }

  /** Whatever else happens meanwhile, a round ends with everything in the file that had
      been appended before its exchange, and nothing more: `due` is that text. */
  lemma {:induction false} RoundWritesWhatItTook(s: State, due: bytes, steps: seq<Step>)
    requires Inv(s) && s.worker.Writing? && CanRun(s, steps)
    requires due == s.file + Unwritten(s)
    requires forall k :: 0 <= k < |steps| ==> steps[k] != Recycle
    ensures
      var o := Run(s, steps);
      && o.Goes? && o.state.worker.Writing? && due == o.state.file + Unwritten(o.state)
      && (Enabled(o.state, Recycle) ==> o.state.file == due)
    decreases |steps|
  {
    if steps == [] {
      if Enabled(s, Recycle) {
        assert s.toFile[s.worker.i..] == [];
      }
    } else {
      StepKeeps(s, steps[0]);
      match steps[0] {
        case Append(msg) => AppendKeeps(s, msg);
        case WriteNext => WriteKeeps(s);
        case _ =>
      }
      RoundWritesWhatItTook(Do(s, steps[0]).state, due, steps[1..]);
    }
  }

  lemma InitEmpty()
    ensures Inv(Init) && Everything(Init) == []
  {
  }

  /** A round begun after `before` writes exactly what was appended up to its exchange,
      whatever else happens while it is being written. */
  lemma RoundWritesTheLog(before: seq<Step>, exchange: Step, meanwhile: seq<Step>)
    requires CanRun(Init, before) && Run(Init, before).Goes? && (exchange == Enter || exchange == Wake)
    requires Enabled(Run(Init, before).state, exchange)
    requires Do(Run(Init, before).state, exchange).Goes?
    requires CanRun(Do(Run(Init, before).state, exchange).state, meanwhile)
    requires forall k :: 0 <= k < |meanwhile| ==> meanwhile[k] != Recycle
    ensures
      var s := Do(Run(Init, before).state, exchange).state;
      s.worker.Writing? ==>
        var o := Run(s, meanwhile);
        o.Goes? && (Enabled(o.state, Recycle) ==> o.state.file == Logged(before))
  {
    hide Run, CanRun, Everything, Logged, Unwritten, Inv, Flat, Swap;
    InitEmpty();
    RunKeeps(Init, before);
    var s := Run(Init, before).state;
    StepKeeps(s, exchange);
    if Do(s, exchange).state.worker.Writing? {
      SwapKeeps(s);
      RoundWritesWhatItTook(Do(s, exchange).state, Logged(before), meanwhile);
    }
  }

  /** The worker takes the filled buffers. */
  predicate Exchanges(s: State, step: Step) {
    step == Wake || (step == Enter && s.cur != Owns([]))
  }

  predicate HasExchange(s: State, steps: seq<Step>)
    requires CanRun(s, steps)
    decreases |steps|
  {
    steps != [] && (
      Exchanges(s, steps[0]) ||
      var o := Do(s, steps[0]);
      o.Goes? && HasExchange(o.state, steps[1..]))
  }

  /** The steps of a run behind its last exchange; all of them if there is none. */
  function SinceExchange(s: State, steps: seq<Step>): (after: seq<Step>)
    requires CanRun(s, steps)
    ensures |after| <= |steps| && after == steps[|steps| - |after|..]
    decreases |steps|
  {
    if !HasExchange(s, steps) then steps
    else
      var o := Do(s, steps[0]);
      if o.Goes? && HasExchange(o.state, steps[1..]) then SinceExchange(o.state, steps[1..]) else steps[1..]
  }

  /** What waits for the next exchange. */
  function Pending(s: State): bytes {
    Flat(s.dirty) + (if s.cur.Owns? then s.cur.text else [])
  }

  lemma PendingAppend(s: State, msg: bytes)
    requires Inv(s)
    ensures
      var o := DoAppend(s, msg);
      o.Goes? && Pending(o.state) == Pending(s) + (if |msg| <= LOG_BUFFER_SIZE then msg else [])
  {
    hide Flat;
    var m := if |msg| <= LOG_BUFFER_SIZE then msg else [];
    if LOG_BUFFER_SIZE - |s.cur.text| > |msg| {
      Regroup(Flat(s.dirty), s.cur.text, m);
    } else {
      Dirtied(s.dirty, s.cur.text);
    }
  }

  lemma PendingStep(s: State, step: Step)
    requires Inv(s) && Enabled(s, step)
    ensures
      var o := Do(s, step);
      o.Goes? && Pending(o.state) == if Exchanges(s, step) then [] else Pending(s) + Logged([step])
  {
    match step
    case Append(msg) =>
      hide Flat;
      PendingAppend(s, msg);
    case Enter =>
    case Wake =>
    case _ =>
      hide Flat;
  }

  /** The first step of a run that has one. */
  lemma NextStep(s: State, steps: seq<Step>)
    requires steps != [] && CanRun(s, steps) && Do(s, steps[0]).Goes?
    ensures
      var t, rest := Do(s, steps[0]).state, steps[1..];
      && CanRun(t, rest) && Run(s, steps) == Run(t, rest)
      && (HasExchange(s, steps) <==> Exchanges(s, steps[0]) || HasExchange(t, rest))
  {
  }

  lemma FirstStep(s: State, steps: seq<Step>)
    requires steps != [] && CanRun(s, steps) && Do(s, steps[0]).Goes?
    ensures
      var t, rest := Do(s, steps[0]).state, steps[1..];
      && CanRun(t, rest) && Logged(steps) == Logged([steps[0]]) + Logged(rest)
      && SinceExchange(s, steps) ==
           if HasExchange(t, rest) then SinceExchange(t, rest) else if Exchanges(s, steps[0]) then rest else steps
  {
  }

  /** What is pending was appended since the last exchange. */
  lemma {:induction false} PendingIsRecent(s: State, steps: seq<Step>)
    requires Inv(s) && CanRun(s, steps)
    ensures Run(s, steps).Goes?
    ensures Pending(Run(s, steps).state) ==
      (if HasExchange(s, steps) then [] else Pending(s)) + Logged(SinceExchange(s, steps))
    ensures !HasExchange(s, steps) ==> SinceExchange(s, steps) == steps
    decreases |steps|
  {
    if steps == [] {
      hide Flat, Pending;
    } else {
      hide *;
      StepGoes(s, steps);
      var t := Do(s, steps[0]).state;
      PendingStep(s, steps[0]);
      NextStep(s, steps);
      FirstStep(s, steps);
      PendingIsRecent(t, steps[1..]);
      if !HasExchange(s, steps) {
        Regroup(Pending(s), Logged([steps[0]]), Logged(steps[1..]));
      }
    }
  }

  lemma StepGoes(s: State, steps: seq<Step>)
    requires Inv(s) && steps != [] && CanRun(s, steps)
    ensures Enabled(s, steps[0]) && Do(s, steps[0]).Goes? && Inv(Do(s, steps[0]).state)
  {
    StepKeeps(s, steps[0]);
  }

  lemma {:induction false} LoggedAppend(a: seq<Step>, b: seq<Step>)
    ensures Logged(a + b) == Logged(a) + Logged(b)
  {
    if a == [] {
      assert a + b == b;
    } else {
      LoggedAppend(a[1..], b);
      LoggedFirst(a);
      LoggedFirst(a + b);
      hide Logged;
      assert (a + b)[1..] == a[1..] + b && (a + b)[0] == a[0];
      Regroup(Logged([a[0]]), Logged(a[1..]), Logged(b));
    }
  }

  lemma LoggedFirst(a: seq<Step>)
    requires a != []
    ensures Logged(a) == Logged([a[0]]) + Logged(a[1..])
  {
  }

  lemma LogIsSplit(steps: seq<Step>)
    requires CanRun(Init, steps)
    ensures
      var o := Run(Init, steps);
      && o.Goes? && Logged(steps) == o.state.file + Unwritten(o.state) + Pending(o.state)
      && Pending(o.state) == Logged(SinceExchange(Init, steps))
  {
    hide Run, CanRun, Logged, HasExchange, SinceExchange, Unwritten, Inv;
    NothingLost(steps);
    InitHolds();
    PendingIsRecent(Init, steps);
    var s := Run(Init, steps).state;
    Regroup(s.file + Unwritten(s), Flat(s.dirty), s.cur.text);
  }

  lemma InitHolds()
    ensures Inv(Init) && Pending(Init) == []
  {
  }

  /** At any moment the last exchange divides the log: what was appended before it is in
      the file or being written, what was appended since is not. */
  lemma ExchangeDivides(steps: seq<Step>)
    requires CanRun(Init, steps)
    ensures
      var o := Run(Init, steps);
      var after := SinceExchange(Init, steps);
      && o.Goes? && o.state.file + Unwritten(o.state) == Logged(steps[..|steps| - |after|])
      && Logged(steps) == Logged(steps[..|steps| - |after|]) + Logged(after)
  {
    hide *;
    LogIsSplit(steps);
    var s, after := Run(Init, steps).state, SinceExchange(Init, steps);
    var before := steps[..|steps| - |after|];
    assert steps == before + after;
    LoggedAppend(before, after);
    Cancel(s.file + Unwritten(s), Logged(before), Logged(after));
  }

  lemma Cancel(a: bytes, b: bytes, c: bytes)
    requires a + c == b + c
    ensures a == b
  {
    assert a == (a + c)[..|a + c| - |c|] && b == (b + c)[..|b + c| - |c|];
  }

  /** When the worker has returned, the file is what was appended before its last
      exchange: the whole log if and only if nothing was appended since. */
  lemma CompleteAtReturn(steps: seq<Step>)
    requires CanRun(Init, steps) && Run(Init, steps).Goes? && Run(Init, steps).state.worker.Returned?
    ensures
      var file, after := Run(Init, steps).state.file, SinceExchange(Init, steps);
      && file == Logged(steps[..|steps| - |after|])
      && (file == Logged(steps) <==> Logged(after) == [])
  {
    hide Run, CanRun, Logged, SinceExchange, HasExchange;
    ExchangeDivides(steps);
    var file, after := Run(Init, steps).state.file, SinceExchange(Init, steps);
    if file == Logged(steps) {
      assert |Logged(after)| == 0;
    }
  }

  // ---- the join of `terminate` ----

  predicate OfWorker(step: Step) {
    !step.Append? && !step.Start? && !step.Terminate?
  }

  /** How many of its steps the worker has. */
  function Turns(steps: seq<Step>): nat {
    if steps == [] then 0 else (if OfWorker(steps[0]) then 1 else 0) + Turns(steps[1..])
  }

  /** The worker will not exchange again once it is told to stop. */
  predicate PastExchange(s: State) {
    !s.worker.Entering? && !s.worker.Asleep?
  }

  /** How many steps a worker told to stop still has: the buffers left to write, the
      recycling and a test of `running_state`; before that one exchange at most, and the
      way to it, which is longer by a sleep if there is nothing to exchange. */
  function Left(s: State): nat {
    match s.worker
    case AtTop => 1
    case Writing(i) => (if i <= |s.toFile| then |s.toFile| - i else 0) + 2
    case Asleep => 1 + (|s.dirty| + 1) + 2
    case Entering => (if s.cur == Owns([]) then 2 else 1) + (|s.dirty| + 1) + 2
    case _ => 0
  }

  /** And at most, if its current buffer may become an empty one. */
  function Most(s: State): nat {
    if s.worker.Entering? then 2 + (|s.dirty| + 1) + 2 else Left(s)
  }

  lemma TurnCounts(s: State, step: Step)
    requires Inv(s) && !s.running && Enabled(s, step) && OfWorker(step)
    ensures
      var o := Do(s, step);
      && o.Goes? && !o.state.running && Left(s) == 1 + Left(o.state) && Most(s) >= 1 + Most(o.state)
      && (PastExchange(s) ==> PastExchange(o.state) && !Exchanges(s, step))
      && (Exchanges(s, step) ==> PastExchange(o.state))
  {
  }

  lemma AppendDelays(s: State, msg: bytes)
    requires Inv(s) && !s.running
    ensures
      var o := DoAppend(s, msg);
      && o.Goes? && !o.state.running && Most(o.state) <= Most(s) + 1
      && (PastExchange(s) ==> PastExchange(o.state) && Left(o.state) == Left(s))
  {
  }

  /** What a worker told to stop does in `turns` of `n` steps, from `s` to `t`. */
  predicate Bounded(s: State, n: nat, turns: nat, exchanges: bool, t: State) {
    && turns <= n && turns + Most(t) <= Most(s) + (n - turns)
    && (PastExchange(s) || turns == n ==> turns + Left(t) == Left(s))
    && (PastExchange(s) ==> PastExchange(t) && !exchanges)
    && (exchanges ==> PastExchange(t))
  }

  lemma BoundedStep(s: State, step: Step, n: nat, turns: nat, n': nat, turns': nat, exchanges: bool, later: bool,
                    t: State)
    requires Inv(s) && !s.running && Enabled(s, step) && step != Start && Do(s, step).Goes?
    requires n == n' + 1 && turns == (if OfWorker(step) then 1 else 0) + turns'
    requires exchanges == (Exchanges(s, step) || later)
    requires Bounded(Do(s, step).state, n', turns', later, t)
    ensures Bounded(s, n, turns, exchanges, t)
  {
    hide Left, Most, Inv, Do, Enabled, PastExchange, Exchanges, OfWorker;
    StopStays(s, step);
  }

  lemma {:induction false} StoppedRun(s: State, steps: seq<Step>)
    requires Inv(s) && !s.running && CanRun(s, steps) && Start !in steps
    ensures
      var o := Run(s, steps);
      && o.Goes? && Inv(o.state) && !o.state.running
      && Bounded(s, |steps|, Turns(steps), HasExchange(s, steps), o.state)
    decreases |steps|
  {
    if steps == [] {
      NoSteps(s);
    } else {
      hide *;
      var step, rest := steps[0], steps[1..];
      StepGoes(s, steps);
      var t := Do(s, step).state;
      StopStays(s, step);
      NextStep(s, steps);
      TurnsFirst(steps, |steps|, |rest|);
      StoppedRun(t, rest);
      BoundedStep(s, step, |steps|, Turns(steps), |rest|, Turns(rest), HasExchange(s, steps), HasExchange(t, rest),
                  Run(s, steps).state);
    }
  }

  lemma TurnsFirst(steps: seq<Step>, n: nat, m: nat)
    requires steps != [] && n == |steps| && m == |steps[1..]|
    ensures n == m + 1 && Turns(steps) == (if OfWorker(steps[0]) then 1 else 0) + Turns(steps[1..])
  {
  }

  lemma NoSteps(s: State)
    ensures CanRun(s, []) && Run(s, []) == Goes(s) && !HasExchange(s, [])
  {
  }

  lemma StopStays(s: State, step: Step)
    requires Inv(s) && !s.running && Enabled(s, step) && step != Start
    ensures
      var o := Do(s, step);
      && o.Goes? && !o.state.running
      && (OfWorker(step) ==> Left(s) == 1 + Left(o.state) && Most(s) >= 1 + Most(o.state))
      && Most(o.state) <= Most(s) + 1
      && (PastExchange(s) ==> PastExchange(o.state) && !Exchanges(s, step))
      && (PastExchange(s) && !OfWorker(step) ==> Left(o.state) == Left(s))
      && (Exchanges(s, step) ==> PastExchange(o.state))
  {
    hide Left, Most, Inv;
    if OfWorker(step) {
      TurnCounts(s, step);
    } else if step.Append? {
      AppendDelays(s, step.msg);
    }
  }

  /** The worker can always go on until it has returned. */
  lemma NeverStuck(s: State)
    requires Inv(s)
    ensures (exists step :: OfWorker(step) && Enabled(s, step)) <==> !s.worker.NotStarted? && !s.worker.Returned?
    ensures !s.running ==> (s.worker.NotStarted? || s.worker.Returned? <==> Left(s) == 0)
  {
    match s.worker
    case AtTop => assert OfWorker(Test) && Enabled(s, Test);
    case Entering => assert OfWorker(Enter) && Enabled(s, Enter);
    case Asleep => assert OfWorker(Wake) && Enabled(s, Wake);
    case Writing(i) =>
      if i < |s.toFile| {
        assert OfWorker(WriteNext) && Enabled(s, WriteNext);
      } else {
        assert OfWorker(Recycle) && Enabled(s, Recycle);
      }
    case _ =>
  }

  lemma MostIsOneMore(s: State)
    ensures Left(s) <= Most(s) <= Left(s) + 1
  {
  }

  /** So the join ends. After `terminate` the worker makes exactly `Left` steps, if it is
      past its last exchange or left alone; else at most one more, and one for each call of
      `append` meanwhile. There is at most one exchange. The worker can go on as long as
      steps are left, and none are left if and only if it has returned. */
  lemma JoinEnds(before: seq<Step>, after: seq<Step>)
    requires CanRun(Init, before) && Run(Init, before).Goes? && !Run(Init, before).state.running
    requires !Run(Init, before).state.worker.NotStarted?
    requires CanRun(Run(Init, before).state, after) && Start !in after
    ensures
      var s := Run(Init, before).state;
      var o := Run(s, after);
      && o.Goes? && Turns(after) <= |after|
      && Turns(after) + Left(o.state) <= Left(s) + 1 + (|after| - Turns(after))
      && (PastExchange(s) || Turns(after) == |after| ==> Turns(after) + Left(o.state) == Left(s))
      && (PastExchange(s) ==> !HasExchange(s, after))
      && (HasExchange(s, after) ==> PastExchange(o.state))
      && (o.state.worker.Returned? <==> Left(o.state) == 0)
      && ((exists step :: OfWorker(step) && Enabled(o.state, step)) <==> Left(o.state) > 0)
  {
    hide Left, Most, Do, Enabled, PastExchange, Exchanges, Run, CanRun, HasExchange, OfWorker, Turns, Inv;
    InitHolds();
    RunKeeps(Init, before);
    var s := Run(Init, before).state;
    StoppedRun(s, after);
    MostIsOneMore(s);
    MostIsOneMore(Run(s, after).state);
    StaysStarted(s, after);
    NeverStuck(Run(s, after).state);
  }

  lemma {:induction false} StaysStarted(s: State, steps: seq<Step>)
    requires Inv(s) && CanRun(s, steps) && !s.worker.NotStarted?
    ensures Run(s, steps).Goes? && !Run(s, steps).state.worker.NotStarted?
    decreases |steps|
  {
    if steps != [] {
      StepKeeps(s, steps[0]);
      StaysStarted(Do(s, steps[0]).state, steps[1..]);
    }
  }

  /** And something may be left: `terminate` does not wait for an exchange. */
  lemma TailLost(msg: bytes)
    requires 0 < |msg| < LOG_BUFFER_SIZE
    ensures
      var steps := [Start, Append(msg), Terminate, Test];
      && CanRun(Init, steps) && Run(Init, steps).Goes? && Run(Init, steps).state.worker.Returned?
      && Run(Init, steps).state.file == [] && Logged(steps) == msg
  {
    var s1 := Do(Init, Start).state;
    var s2 := Do(s1, Append(msg)).state;
    var s3 := Do(s2, Terminate).state;
    var s4 := Do(s3, Test).state;
    assert CanRun(s4, []) && Run(s4, []) == Goes(s4);
    assert [Terminate, Test][1..] == [Test] && CanRun(s3, [Test]) && Run(s3, [Test]) == Goes(s4);
    assert [Append(msg), Terminate, Test][1..] == [Terminate, Test];
    assert CanRun(s2, [Terminate, Test]) && Run(s2, [Terminate, Test]) == Goes(s4);
    assert CanRun(s1, [Append(msg), Terminate, Test]);
    assert [Start, Append(msg), Terminate, Test][1..] == [Append(msg), Terminate, Test];
    assert Logged([Test]) == [] && Logged([Terminate, Test]) == [];
  }
}
