/** What a client takes off the wire that the response tasks of the server write. */
module ServerStreams {
  import opened Bytes
  import opened Protocols
  import opened Sessions
  import opened FrameStreams
  import opened ResponseTasks

  /** Task `i` sends the frame of `ms[i]`. */
  ghost predicate Sending(tasks: seq<Task>, ms: seq<Message>) {
    |ms| == |tasks| && AllGood(ms) && forall i :: 0 <= i < |ms| ==> tasks[i].frame == Frame(ms[i])
  }

  /** The responses of the tasks `order`. */
  function Responses(ms: seq<Message>, order: seq<nat>): (rs: seq<Message>)
    requires forall j :: 0 <= j < |order| ==> order[j] < |ms|
    ensures |rs| == |order| && forall j :: 0 <= j < |order| ==> rs[j] == ms[order[j]]
  {
    seq(|order|, j requires 0 <= j < |order| => ms[order[j]])
  }

  lemma {:induction false} FramesAreStream(tasks: seq<Task>, ms: seq<Message>, order: seq<nat>)
    requires Sending(tasks, ms) && forall j :: 0 <= j < |order| ==> order[j] < |ms|
    ensures AllGood(Responses(ms, order)) && Frames(tasks, order) == Stream(Responses(ms, order))
  {
    if order != [] {
      var init, last := order[..|order| - 1], order[|order| - 1];
      FramesAreStream(tasks, ms, init);
      assert Responses(ms, order) == Responses(ms, init) + [ms[last]];
      StreamAppend(Responses(ms, init), ms[last]);
    }
  }

  /** Whole frames found in a stream that ends with part of a frame. */
  lemma FoundBefore(sent: seq<Message>, m: Message, tail: bytes, got: seq<Message>, rest: bytes)
    requires AllGood(sent) && Good(m) && AllGood(got) && tail <= Frame(m)
    requires Stream(got) + rest <= Stream(sent) + tail
    ensures got <= sent + [m]
    ensures tail != Frame(m) ==> got <= sent
  {
    hide Frame, Stream;
    StreamAppend(sent, m);
    assert Frame(m) == tail + Frame(m)[|tail|..];
    assert Stream(sent) + Frame(m) == Stream(sent) + tail + Frame(m)[|tail|..];
    FramesInOrder(sent + [m], got, rest);
    assert |tail| == |Frame(m)| ==> tail == Frame(m);
    assert got == (sent + [m])[..|got|];
    assert |got| <= |sent| ==> got == sent[..|got|];
    assert |got| > |sent| ==> got == sent + [m] && |Stream(got)| == |Stream(sent)| + |Frame(m)|;
    assert |Stream(got) + rest| <= |Stream(sent) + tail|;
  }

  lemma FoundInOrder(s: State, ms: seq<Message>, got: seq<Message>, rest: bytes)
    requires Inv(s) && Sending(s.tasks, ms) && AllGood(got) && Stream(got) + rest <= s.wire
    ensures got <= Responses(ms, s.order + (if s.holder == -1 then [] else [s.holder]))
  {
    hide Frame, Stream, Frames;
    var sent := Responses(ms, s.order);
    FramesAreStream(s.tasks, ms, s.order);
    if s.cut != [] {
      var i :| 0 <= i < |s.tasks| && IsCutOff(s.cut, s.tasks[i].frame);
      assert s.wire == Stream(sent) + s.cut;
      FoundBefore(sent, ms[i], s.cut, got, rest);
      assert sent <= Responses(ms, s.order + (if s.holder == -1 then [] else [s.holder]));
    } else if s.holder == -1 {
      assert s.wire == Stream(sent);
      FramesInOrder(sent, got, rest);
      assert s.order + [] == s.order;
    } else {
      assert s.wire == Stream(sent) + InFlight(s);
      FoundBefore(sent, ms[s.holder], InFlight(s), got, rest);
      assert Responses(ms, s.order + [s.holder]) == sent + [ms[s.holder]];
    }
  }

  /** In every interleaving of the response tasks, the frames that a client finds in what
      has arrived, however much that is, are the responses of the tasks that sent theirs,
      the first ones in the order of sending; the last may be that of the task that holds
      the lock and has sent all of it. */
  lemma ResponsesInOrder(steps: seq<Step>, ms: seq<Message>, got: seq<Message>, rest: bytes)
    requires CanRun(Init, steps) && Sending(Run(Init, steps).tasks, ms)
    requires AllGood(got) && Stream(got) + rest <= Run(Init, steps).wire
    ensures
      var s := Run(Init, steps);
      && -1 <= s.holder < |ms| && (forall j :: 0 <= j < |s.order| ==> s.order[j] < |ms|)
      && got <= Responses(ms, s.order + (if s.holder == -1 then [] else [s.holder]))
  {
    InitInv();
    InvRun(Init, steps);
    hide Run, CanRun, Stream;
    FoundInOrder(Run(Init, steps), ms, got, rest);
  }
}
