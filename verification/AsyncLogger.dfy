/** `AsyncLogger` with its buffers on the heap: every step moves unique pointers between
    the fields, the two lists and the worker's locals, and does what `LoggerSteps` says
    of the texts. Between any two of the steps any other may run. */
module AsyncLoggers {
  import opened Bytes
  import opened Buffers
  import opened LoggerSteps

  /** The pointer that owns a buffer; `Local` is one on its way from pointer to pointer.
      The list filled in round `r` is the dirty one until the exchange, and then the one
      being written. */
  datatype Owner = Local | Current | Next | Listed(r: int, i: int) | Spare | SpareNext

  ghost predicate Tag(owner: map<Buffer, Owner>, p: Buffer?, o: Owner) {
    p != null ==> p in owner && owner[p] == o
  }

  ghost predicate TagAll(owner: map<Buffer, Owner>, ps: seq<Buffer>, r: int) {
    forall i :: 0 <= i < |ps| ==> ps[i] in owner && owner[ps[i]] == Listed(r, i)
  }

  /** Each pointer of a logger is the owner of its buffer. */
  ghost predicate Tags(owner: map<Buffer, Owner>, r: int, cur: Buffer?, next: Buffer?,
                       dirty: seq<Buffer>, toFile: seq<Buffer>, spare: Buffer?, spareNext: Buffer?)
  {
    && Tag(owner, cur, Current) && Tag(owner, next, Next) && Tag(owner, spare, Spare)
    && Tag(owner, spareNext, SpareNext) && TagAll(owner, dirty, r) && TagAll(owner, toFile, r - 1)
  }

  ghost predicate Distinct(ps: seq<Buffer>) {
    forall i, j :: 0 <= i < j < |ps| ==> ps[i] != ps[j]
  }

  lemma DistinctAppend(a: seq<Buffer>, b: seq<Buffer>)
    requires Distinct(a) && Distinct(b) && forall p :: p in a ==> p !in b
    ensures Distinct(a + b)
  {
    forall i, j | 0 <= i < j < |a + b| ensures (a + b)[i] != (a + b)[j] {
      assert i < |a| ==> (a + b)[i] in a;
      assert j >= |a| ==> (a + b)[j] in b;
    }
  }

  /** So no buffer is held twice. */
  lemma HeldOnce(owner: map<Buffer, Owner>, r: int, cur: Buffer?, next: Buffer?,
                 dirty: seq<Buffer>, toFile: seq<Buffer>, spare: Buffer?, spareNext: Buffer?)
    requires Tags(owner, r, cur, next, dirty, toFile, spare, spareNext)
    ensures Distinct(One(cur) + One(next) + One(spare) + One(spareNext) + (dirty + toFile))
  {
    DistinctAppend(One(cur), One(next));
    DistinctAppend(One(cur) + One(next), One(spare));
    DistinctAppend(One(cur) + One(next) + One(spare), One(spareNext));
    DistinctAppend(dirty, toFile);
    DistinctAppend(One(cur) + One(next) + One(spare) + One(spareNext), dirty + toFile);
  }

  function Without(p: Buffer?, b: Buffer): Buffer? {
    if p == b then null else p
  }

  /** A pointer that lets its buffer go, or a list that lets its last one go. */
  lemma TagsLoosen(owner: map<Buffer, Owner>, r: int, cur: Buffer?, next: Buffer?, dirty: seq<Buffer>,
                   toFile: seq<Buffer>, spare: Buffer?, spareNext: Buffer?, b: Buffer)
    requires Tags(owner, r, cur, next, dirty, toFile, spare, spareNext)
    requires b == cur || b == next || b == spare || b == spareNext || (toFile != [] && b == toFile[|toFile| - 1])
    ensures b in owner && Tag(owner[b := Local], b, Local)
    ensures  // and there is one such
      (if b == cur then 1 else 0) + (if b == next then 1 else 0) + (if b == spare then 1 else 0) +
      (if b == spareNext then 1 else 0) + (if toFile != [] && b == toFile[|toFile| - 1] then 1 else 0) == 1
    ensures
      var n := if toFile != [] && b == toFile[|toFile| - 1] then |toFile| - 1 else |toFile|;
      Tags(owner[b := Local], r, Without(cur, b), Without(next, b), dirty, toFile[..n],
           Without(spare, b), Without(spareNext, b))
  {
  }

  lemma TagsPop(owner: map<Buffer, Owner>, r: int, cur: Buffer?, next: Buffer?, dirty: seq<Buffer>,
                toFile: seq<Buffer>, spare: Buffer?, spareNext: Buffer?)
    requires Tags(owner, r, cur, next, dirty, toFile, spare, spareNext) && toFile != []
    ensures
      var n := |toFile| - 1;
      && toFile[n] in owner && Tag(owner[toFile[n] := Local], toFile[n], Local)
      && Tags(owner[toFile[n] := Local], r, cur, next, dirty, toFile[..n], spare, spareNext)
  {
    hide Tags;
    TagsLoosen(owner, r, cur, next, dirty, toFile, spare, spareNext, toFile[|toFile| - 1]);
  }

  lemma TagsNew(owner: map<Buffer, Owner>, r: int, cur: Buffer?, next: Buffer?, dirty: seq<Buffer>,
                toFile: seq<Buffer>, spare: Buffer?, spareNext: Buffer?, b: Buffer)
    requires Tags(owner, r, cur, next, dirty, toFile, spare, spareNext) && b !in owner
    ensures Tags(owner[b := Local], r, cur, next, dirty, toFile, spare, spareNext)
  {
  }

  /** A null pointer, or the end of the dirty list, takes the buffer. */
  lemma TagsTake(owner: map<Buffer, Owner>, r: int, cur: Buffer?, next: Buffer?, dirty: seq<Buffer>,
                 toFile: seq<Buffer>, spare: Buffer?, spareNext: Buffer?, b: Buffer)
    requires Tags(owner, r, cur, next, dirty, toFile, spare, spareNext) && Tag(owner, b, Local)
    ensures b in owner
    ensures cur == null ==> Tags(owner[b := Current], r, b, next, dirty, toFile, spare, spareNext)
    ensures next == null ==> Tags(owner[b := Next], r, cur, b, dirty, toFile, spare, spareNext)
    ensures spare == null ==> Tags(owner[b := Spare], r, cur, next, dirty, toFile, b, spareNext)
    ensures spareNext == null ==> Tags(owner[b := SpareNext], r, cur, next, dirty, toFile, spare, b)
    ensures Tags(owner[b := Listed(r, |dirty|)], r, cur, next, dirty + [b], toFile, spare, spareNext)
  {
  }

  function One(p: Buffer?): seq<Buffer> {
    if p == null then [] else [p]
  }

  ghost predicate Holds(b: Buffer, text: bytes)
    reads b, b.buffer
  {
    b.SIZE == LOG_BUFFER_SIZE && b.Valid() && b.text == text
  }

  ghost predicate Shows(p: Buffer?, q: Pointer)
    reads p, if p == null then {} else {p.buffer}
  {
    (p == null <==> q.Null?) && (p != null ==> Holds(p, q.text))
  }

  ghost predicate ShowsAll(ps: seq<Buffer>, texts: seq<bytes>)
    reads ps, set b | b in ps :: b.buffer
  {
    |ps| == |texts| && forall i :: 0 <= i < |ps| ==> Holds(ps[i], texts[i])
  }

  lemma NullShows()
    ensures Shows(null, Null)
  {
  }

  lemma NewShows(b: Buffer)
    requires Holds(b, [])
    ensures Shows(b, Owns([]))
  {
  }

  lemma PushShows(ps: seq<Buffer>, texts: seq<bytes>, b: Buffer, q: Pointer)
    requires ShowsAll(ps, texts) && Shows(b, q)
    ensures q.Owns? && ShowsAll(ps + [b], texts + [q.text])
  {
  }

  lemma TakeShows(ps: seq<Buffer>, texts: seq<bytes>, n: nat)
    requires ShowsAll(ps, texts) && n <= |ps|
    ensures n <= |texts| && ShowsAll(ps[..n], texts[..n])
  {
  }

  lemma LastShows(ps: seq<Buffer>, texts: seq<bytes>)
    requires ShowsAll(ps, texts) && ps != []
    ensures
      var n := |ps| - 1;
      |texts| == n + 1 && ShowsAll(ps[..n], texts[..n]) && Shows(ps[n], Owns(texts[n]))
  {
  }

  function Available(b: Buffer, ghost text: bytes): (n: nat)
    requires Holds(b, text)
    reads b, b.buffer
    ensures n == LOG_BUFFER_SIZE - |text|
  {
    b.Avail()
  }

  method AppendTo(b: Buffer, ghost text: bytes, msg: bytes)
    requires Holds(b, text)
    modifies b, b.buffer
    ensures Holds(b, Appended(text, msg))
  {
    var ok := b.Append(msg);
  }

  method ClearIt(b: Buffer, ghost text: bytes)
    requires Holds(b, text)
    modifies b, b.buffer
    ensures Shows(b, Owns([]))
  {
    b.Clear();
  }

  class AsyncLogger {
    var cur: Buffer?
    var next: Buffer?
    var dirty: seq<Buffer>
    var running: bool
    // the worker and its locals
    var worker: Worker
    var toFile: seq<Buffer>
    var spare: Buffer?
    var spareNext: Buffer?
    // what the file holds
    var file: bytes

    ghost var state: State
    ghost var round: int
    ghost var owner: map<Buffer, Owner>        // one owner to a buffer
    ghost var home: map<array<byte>, Buffer>   // one buffer to an array
    ghost var Repr: set<object>

    ghost predicate Separate()
      reads `owner, `home, `Repr
    {
      && this in Repr
      && forall b :: b in owner ==> b in Repr && b.buffer in Repr && b.buffer in home && home[b.buffer] == b
    }

    /** The heap shows `state`. */
    ghost predicate Shown()
      reads this, Repr
    {
      && Separate() && Tags(owner, round, cur, next, dirty, toFile, spare, spareNext)
      && Shows(cur, state.cur) && Shows(next, state.next)
      && Shows(spare, state.spare) && Shows(spareNext, state.spareNext)
      && ShowsAll(dirty, state.dirty) && ShowsAll(toFile, state.toFile)
      && running == state.running && worker == state.worker && file == state.file
    }

    ghost predicate Valid()
      reads this, Repr
    {
      Shown() && Inv(state)
    }

    /** The buffers held, each as often as it is held. */
    ghost function Held(): seq<Buffer>
      reads `cur, `next, `dirty, `toFile, `spare, `spareNext
    {
      One(cur) + One(next) + One(spare) + One(spareNext) + (dirty + toFile)
    }

    /** No buffer is held twice, and no two share memory. */
    lemma BuffersApart()
      requires Valid()
      ensures Distinct(Held())
      ensures forall b, c :: b in Held() && c in Held() && b != c ==> b.buffer != c.buffer
    {
      hide Shows, ShowsAll, Inv;
      HeldOnce(owner, round, cur, next, dirty, toFile, spare, spareNext);
      forall b | b in Held()
        ensures b in owner
      {
      }
    }

    lemma ShownShape()
      requires Shown()
      ensures this in Repr && (cur == null <==> state.cur.Null?) && (next == null <==> state.next.Null?)
      ensures (spare == null <==> state.spare.Null?) && (spareNext == null <==> state.spareNext.Null?)
      ensures |dirty| == |state.dirty| && |toFile| == |state.toFile|
      ensures running == state.running && worker == state.worker
    {
      hide Holds, Tags;
    }

    constructor ()
      ensures Valid() && fresh(Repr) && state == Init
    {
      cur, next, dirty := null, null, [];
      running, worker, file := false, NotStarted, [];
      toFile, spare, spareNext := [], null, null;
      state := Init.(cur := Null, next := Null);
      round, owner, home, Repr := 0, map[], map[], {this};
      new;
      hide Holds, Tag, AsyncLogger.Shown, Shows;
      NothingShown();
      var b := NewBuffer();
      KeepAsCur(b, []);
      b := NewBuffer();
      KeepAsNext(b, []);
    }

    lemma NothingShown()
      requires cur == next == spare == spareNext == null && dirty == toFile == []
      requires !running && worker == NotStarted && file == [] && owner == map[] && Repr == {this}
      requires state == Init.(cur := Null, next := Null)
      ensures Shown()
    {
    }

    // ---- any thread ----

    method Append(msg: bytes)
      requires Valid()
      modifies Repr
      ensures Valid() && fresh(Repr - old(Repr))
      ensures Do(old(state), LoggerSteps.Append(msg)) == Goes(state)
    {
      hide Holds, Tag, AsyncLogger.Shown, Shows;
      ShownShape();
      AppendKeeps(state, msg);
      var room := Room();
      if room <= |msg| {
        Rotate();
      }
      Put(msg);
    }

    function Room(): (n: nat)
      requires Shown() && state.cur.Owns?
      reads this, Repr
      ensures n == LOG_BUFFER_SIZE - |state.cur.text|
    {
      hide Holds, Tags, ShowsAll;
      Available(cur, state.cur.text)
    }

    method Put(msg: bytes)
      requires Shown() && state.cur.Owns?
      modifies Repr
      ensures Shown() && Repr == old(Repr)
      ensures state == old(state).(cur := Owns(Appended(old(state.cur.text), msg)))
    {
      hide Holds;
      AppendTo(cur, state.cur.text, msg);
      state := state.(cur := Owns(Appended(state.cur.text, msg)));
    }

    /** The current buffer becomes the last dirty one; the next one, or a new one, takes
        its place. */
    method Rotate()
      requires Valid()
      modifies this
      ensures Shown() && fresh(Repr - old(Repr))
      ensures state == old(state).(dirty := old(state.dirty) + [old(state.cur.text)], next := Null, cur := Owns([]))
    {
      hide Holds, ShowsAll, AsyncLogger.Separate, Tags;
      ghost var text := state.cur.text;
      var b := TakeCur();
      PushDirty(b, text);
      if next != null {
        b := TakeNext();
      } else {
        b := NewBuffer();
      }
      KeepAsCur(b, []);
    }

    method Start()
      requires Valid() && (worker.NotStarted? || worker.Returned?)
      modifies this
      ensures Valid() && fresh(Repr - old(Repr)) && Do(old(state), LoggerSteps.Start) == Goes(state)
    {
      hide Holds, Tag, AsyncLogger.Shown, Shows;
      ShownShape();
      Go(true, AtTop);
      var b := NewBuffer();
      KeepAsSpare(b, []);
      b := NewBuffer();
      KeepAsSpareNext(b, []);
    }

    method Terminate()
      requires Valid() && running
      modifies `running, `state
      ensures Valid() && Do(old(state), LoggerSteps.Terminate) == Goes(state)
    {
      hide Holds, ShowsAll, Shows, AsyncLogger.Separate, Tags;
      running := false;
      state := state.(running := false);
    }

    // ---- the worker ----

    method Test()
      requires Valid() && worker.AtTop?
      modifies this
      ensures Valid() && Repr == old(Repr) && Do(old(state), LoggerSteps.Test) == Goes(state)
    {
      hide Holds, Shows, AsyncLogger.Shown;
      ShownShape();
      if running {
        Go(running, Entering);
      } else {
        DropSpares();
        Go(running, Returned);
      }
    }

    method Enter()
      requires Valid() && worker.Entering?
      modifies this
      ensures Valid() && Repr == old(Repr) && Do(old(state), LoggerSteps.Enter) == Goes(state)
    {
      hide Holds, Tags, ShowsAll, AsyncLogger.Separate;
      assert cur != null;
      if Available(cur, state.cur.text) == LOG_BUFFER_SIZE {
        worker := Asleep;
        state := state.(worker := Asleep);
      } else {
        Swap();
      }
    }

    method Wake()
      requires Valid() && worker.Asleep?
      modifies this
      ensures Valid() && Repr == old(Repr) && Do(old(state), LoggerSteps.Wake) == Goes(state)
    {
      Swap();
    }

    /** The exchange, statement by statement. */
    method Swap()
      requires Valid() && (worker.Entering? || worker.Asleep?)
      modifies this
      ensures Valid() && Repr == old(Repr) && LoggerSteps.Swap(old(state)) == Goes(state)
    {
      hide Holds, Tag, AsyncLogger.Shown, Shows;
      ShownShape();
      ReplaceCur();
      SwapLists();
      if next == null && spareNext != null {
        var b := TakeSpareNext();
        KeepAsNext(b, []);
      }
      Go(running, Writing(0));
    }

    /** The current buffer becomes the last dirty one, and the spare takes its place. */
    method ReplaceCur()
      requires Shown() && cur != null && spare != null && state.cur.Owns? && state.spare == Owns([])
      modifies `cur, `dirty, `spare, `owner, `state
      ensures Shown()
      ensures
        state == old(state).(dirty := old(state.dirty) + [old(state.cur.text)], cur := Owns([]), spare := Null)
    {
      hide Holds, Tag, AsyncLogger.Shown, Shows;
      ghost var text := state.cur.text;
      var b := TakeCur();
      PushDirty(b, text);
      b := TakeSpare();
      KeepAsCur(b, []);
    }

    method WriteNext()
      requires Valid() && worker.Writing? && worker.i < |toFile|
      modifies `file, `worker, `state
      ensures Valid() && Do(old(state), LoggerSteps.WriteNext) == Goes(state)
    {
      hide Tags, Shows, AsyncLogger.Separate;
      file := file + toFile[worker.i].Data();
      worker := Writing(worker.i + 1);
      state := state.(file := file, worker := worker);
    }

    method Recycle()
      requires Valid() && worker.Writing? && worker.i >= |toFile|
      modifies Repr
      ensures Valid() && Repr == old(Repr) && Do(old(state), LoggerSteps.Recycle) == Goes(state)
    {
      hide Holds, Tag, AsyncLogger.Shown, Shows;
      ShownShape();
      if |toFile| > 2 {
        Resize(2);
      }
      assert spare == null;
      if spare == null {
        assert toFile != [];
        var b := TakeBack();
        KeepAsSpare(b, []);
      }
      if spareNext == null {
        assert toFile != [];
        var b := TakeBack();
        KeepAsSpareNext(b, []);
      }
      Resize(0);
      ShownShape();
      Go(running, AtTop);
    }

    /** The worker's locals go with it. */
    method DropSpares()
      requires Shown()
      modifies `spare, `spareNext, `state
      ensures Shown() && state == old(state).(spare := Null, spareNext := Null)
    {
      hide Holds, ShowsAll, Shows, AsyncLogger.Separate;
      NullShows();
      spare, spareNext := null, null;
      state := state.(spare := Null, spareNext := Null);
    }

    method Go(r: bool, w: Worker)
      requires Shown()
      modifies `running, `worker, `state
      ensures Shown() && state == old(state).(running := r, worker := w) && running == r
    {
      hide Holds, Tags, Shows, ShowsAll, AsyncLogger.Separate;
      running := r;
      worker := w;
      state := state.(running := r, worker := w);
    }

    // ---- moves of unique pointers ----

    /** A buffer that shares nothing with the others. */
    method NewBuffer() returns (b: Buffer)
      requires Shown()
      modifies `owner, `home, `Repr
      ensures Shown() && fresh(Repr - old(Repr)) && state == old(state)
      ensures Tag(owner, b, Local) && Shows(b, Owns([]))
    {
      hide AsyncLogger.Shown, Tag;
      b := new Buffer(LOG_BUFFER_SIZE);
      Adopt(b);
    }

    /** A buffer that nobody held comes to be held on its way. */
    ghost method Adopt(b: Buffer)
      requires Shown() && b !in Repr && b.buffer !in Repr && Holds(b, [])
      modifies `owner, `home, `Repr
      ensures Shown() && Repr == old(Repr) + {b, b.buffer}
      ensures Tag(owner, b, Local) && Shows(b, Owns([]))
    {
      hide Shows, ShowsAll, Tags, Holds;
      TagsNew(owner, round, cur, next, dirty, toFile, spare, spareNext, b);
      NewShows(b);
      owner := owner[b := Local];
      home := home[b.buffer := b];
      Repr := Repr + {b, b.buffer};
    }

    /** The last buffer of the list, cleared. */
    method TakeBack() returns (b: Buffer)
      requires Shown() && toFile != []
      modifies Repr
      ensures Shown() && Repr == old(Repr) && Tag(owner, b, Local) && Shows(b, Owns([]))
      ensures spare == old(spare) && spareNext == old(spareNext) && toFile == old(toFile)[..|old(toFile)| - 1]
      ensures |old(state.toFile)| > 0 && state == old(state).(toFile := old(state.toFile)[..|old(state.toFile)| - 1])
    {
      hide Holds, Tags;
      b := PopBack();
      Erase(b, old(state.toFile[|state.toFile| - 1]));
    }

    method PopBack() returns (b: Buffer)
      requires Shown() && toFile != []
      modifies `toFile, `owner, `state
      ensures Shown() && Tag(owner, b, Local) && |old(state.toFile)| > 0
      ensures toFile == old(toFile)[..|old(toFile)| - 1]
      ensures
        var n := |old(state.toFile)| - 1;
        Shows(b, Owns(old(state.toFile)[n])) && state == old(state).(toFile := old(state.toFile)[..n])
    {
      hide Holds, Tags, Shows, ShowsAll;
      LastShows(toFile, state.toFile);
      b := toFile[|toFile| - 1];
      TagsPop(owner, round, cur, next, dirty, toFile, spare, spareNext);
      owner := owner[b := Local];
      toFile := toFile[..|toFile| - 1];
      state := state.(toFile := state.toFile[..|state.toFile| - 1]);
    }

    /** Clearing a buffer on its way touches no buffer that is held. */
    method Erase(b: Buffer, ghost text: bytes)
      requires Shown() && Tag(owner, b, Local) && Shows(b, Owns(text))
      modifies b, b.buffer
      ensures Shown() && Shows(b, Owns([]))
    {
      hide Holds;
      ClearIt(b, text);
    }

    method TakeCur() returns (b: Buffer)
      requires Shown() && cur != null
      modifies `cur, `owner, `state
      ensures Shown() && Tag(owner, b, Local) && Shows(b, old(state.cur))
      ensures cur == null && state == old(state).(cur := Null)
    {
      hide Holds, Tags, Shows, ShowsAll;
      NullShows();
      b := cur;
      TagsLoosen(owner, round, cur, next, dirty, toFile, spare, spareNext, b);
      assert toFile[..|toFile|] == toFile;
      owner := owner[b := Local];
      cur := null;
      state := state.(cur := Null);
    }

    method TakeNext() returns (b: Buffer)
      requires Shown() && next != null
      modifies `next, `owner, `state
      ensures Shown() && Tag(owner, b, Local) && Shows(b, old(state.next))
      ensures next == null && state == old(state).(next := Null)
    {
      hide Holds, Tags, Shows, ShowsAll;
      NullShows();
      b := next;
      TagsLoosen(owner, round, cur, next, dirty, toFile, spare, spareNext, b);
      assert toFile[..|toFile|] == toFile;
      owner := owner[b := Local];
      next := null;
      state := state.(next := Null);
    }

    method TakeSpare() returns (b: Buffer)
      requires Shown() && spare != null
      modifies `spare, `owner, `state
      ensures Shown() && Tag(owner, b, Local) && Shows(b, old(state.spare))
      ensures spare == null && state == old(state).(spare := Null)
    {
      hide Holds, Tags, Shows, ShowsAll;
      NullShows();
      b := spare;
      TagsLoosen(owner, round, cur, next, dirty, toFile, spare, spareNext, b);
      assert toFile[..|toFile|] == toFile;
      owner := owner[b := Local];
      spare := null;
      state := state.(spare := Null);
    }

    method TakeSpareNext() returns (b: Buffer)
      requires Shown() && spareNext != null
      modifies `spareNext, `owner, `state
      ensures Shown() && Tag(owner, b, Local) && Shows(b, old(state.spareNext))
      ensures spareNext == null && state == old(state).(spareNext := Null)
    {
      hide Holds, Tags, Shows, ShowsAll;
      NullShows();
      b := spareNext;
      TagsLoosen(owner, round, cur, next, dirty, toFile, spare, spareNext, b);
      assert toFile[..|toFile|] == toFile;
      owner := owner[b := Local];
      spareNext := null;
      state := state.(spareNext := Null);
    }

    method KeepAsCur(b: Buffer, ghost text: bytes)
      requires Shown() && cur == null && Tag(owner, b, Local) && Shows(b, Owns(text))
      modifies `cur, `owner, `state
      ensures Shown() && state == old(state).(cur := Owns(text))
    {
      hide Holds, Tags, Shows, ShowsAll;
      TagsTake(owner, round, cur, next, dirty, toFile, spare, spareNext, b);
      owner := owner[b := Current];
      cur := b;
      state := state.(cur := Owns(text));
    }

    method KeepAsNext(b: Buffer, ghost text: bytes)
      requires Shown() && next == null && Tag(owner, b, Local) && Shows(b, Owns(text))
      modifies `next, `owner, `state
      ensures Shown() && state == old(state).(next := Owns(text))
    {
      hide Holds, Tags, Shows, ShowsAll;
      TagsTake(owner, round, cur, next, dirty, toFile, spare, spareNext, b);
      owner := owner[b := Next];
      next := b;
      state := state.(next := Owns(text));
    }

    method KeepAsSpare(b: Buffer, ghost text: bytes)
      requires Shown() && spare == null && Tag(owner, b, Local) && Shows(b, Owns(text))
      modifies `spare, `owner, `state
      ensures Shown() && state == old(state).(spare := Owns(text))
    {
      hide Holds, Tags, Shows, ShowsAll;
      TagsTake(owner, round, cur, next, dirty, toFile, spare, spareNext, b);
      owner := owner[b := Spare];
      spare := b;
      state := state.(spare := Owns(text));
    }

    method KeepAsSpareNext(b: Buffer, ghost text: bytes)
      requires Shown() && spareNext == null && Tag(owner, b, Local) && Shows(b, Owns(text))
      modifies `spareNext, `owner, `state
      ensures Shown() && state == old(state).(spareNext := Owns(text))
    {
      hide Holds, Tags, Shows, ShowsAll;
      TagsTake(owner, round, cur, next, dirty, toFile, spare, spareNext, b);
      owner := owner[b := SpareNext];
      spareNext := b;
      state := state.(spareNext := Owns(text));
    }

    method PushDirty(b: Buffer, ghost text: bytes)
      requires Shown() && Tag(owner, b, Local) && Shows(b, Owns(text))
      modifies `dirty, `owner, `state
      ensures Shown() && state == old(state).(dirty := old(state.dirty) + [text])
    {
      hide Holds, Tags, Shows, ShowsAll;
      PushShows(dirty, state.dirty, b, Owns(text));
      TagsTake(owner, round, cur, next, dirty, toFile, spare, spareNext, b);
      owner := owner[b := Listed(round, |dirty|)];
      dirty := dirty + [b];
      state := state.(dirty := state.dirty + [text]);
    }

    method SwapLists()
      requires Shown() && toFile == []
      modifies `dirty, `toFile, `round, `state
      ensures Shown() && toFile == old(dirty)
      ensures state == old(state).(dirty := old(state.toFile), toFile := old(state.dirty))
    {
      hide Holds, Shows, ShowsAll, AsyncLogger.Separate;
      dirty, toFile := toFile, dirty;
      round := round + 1;
      state := state.(dirty := state.toFile, toFile := state.dirty);
    }

    /** Buffers past the end of the list are freed. */
    method Resize(n: nat)
      requires Shown() && n <= |toFile|
      modifies `toFile, `state
      ensures Shown() && |toFile| == n <= |old(state.toFile)| && state == old(state).(toFile := old(state.toFile)[..n])
    {
      hide Holds, Shows, ShowsAll, AsyncLogger.Separate;
      TakeShows(toFile, state.toFile, n);
      toFile := toFile[..n];
      state := state.(toFile := state.toFile[..n]);
    }
  }

  method Perform(logger: AsyncLogger, step: Step)
    requires logger.Valid() && Enabled(logger.state, step)
    modifies logger.Repr
    ensures logger.Valid() && fresh(logger.Repr - old(logger.Repr))
    ensures Do(old(logger.state), step) == Goes(logger.state)
  {
    hide Holds, Tags, Shows, ShowsAll, AsyncLogger.Separate, Inv, Do;
    logger.ShownShape();
    match step
    case Append(msg) => logger.Append(msg);
    case Start => logger.Start();
    case Terminate => logger.Terminate();
    case Test => logger.Test();
    case Enter => logger.Enter();
    case Wake => logger.Wake();
    case WriteNext => logger.WriteNext();
    case Recycle => logger.Recycle();
  }

  /** Any interleaving, on the heap: the file is a prefix of the log. */
  method Interleave(steps: seq<Step>) returns (logger: AsyncLogger)
    requires CanRun(Init, steps)
    ensures logger.Valid() && Run(Init, steps) == Goes(logger.state)
    ensures logger.file <= Logged(steps) && Distinct(logger.Held())
    ensures forall b, c :: b in logger.Held() && c in logger.Held() && b != c ==> b.buffer != c.buffer
  {
    hide Holds, Tags, Shows, ShowsAll, AsyncLogger.Separate;
    FileIsPrefix(steps);
    logger := new AsyncLogger();
    PerformAll(logger, steps);
    logger.BuffersApart();
  }

  method PerformAll(logger: AsyncLogger, steps: seq<Step>)
    requires logger.Valid() && CanRun(logger.state, steps)
    modifies logger.Repr
    ensures logger.Valid() && fresh(logger.Repr - old(logger.Repr))
    ensures Run(old(logger.state), steps) == Goes(logger.state)
    decreases |steps|
  {
    hide AsyncLogger.Shown, Inv, Do;
    if steps != [] {
      Perform(logger, steps[0]);
      PerformAll(logger, steps[1..]);
    }
  }
}
