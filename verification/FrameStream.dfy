/** Lists of frames sent over one connection and received at its other end. */
module FrameStreams {
  import opened Bytes
  import opened Protocols
  import opened Sessions

  ghost predicate AllGood(ms: seq<Message>) {
    forall i :: 0 <= i < |ms| ==> Good(ms[i])
  }

  /** The frames of `ms` one after the other. */
  function Stream(ms: seq<Message>): bytes
    requires forall i :: 0 <= i < |ms| ==> ms[i].Valid()
  {
    if ms == [] then [] else Frame(ms[0]) + Stream(ms[1..])
  }

  lemma {:induction false} StreamAppend(ms: seq<Message>, m: Message)
    requires m.Valid() && forall i :: 0 <= i < |ms| ==> ms[i].Valid()
    ensures Stream(ms + [m]) == Stream(ms) + Frame(m)
  {
    if ms == [] {
      assert Stream([m]) == Frame(m) + Stream([m][1..]);
    } else {
      StreamAppend(ms[1..], m);
      assert (ms + [m])[1..] == ms[1..] + [m];
    }
  }

  /** Two good frames at the start of one stream are the same frame. */
  lemma SameFrame(a: Message, b: Message, s: bytes)
    requires Good(a) && Good(b) && Frame(a) <= s && Frame(b) <= s
    ensures a == b
  {
    assert s == Frame(a) + s[|Frame(a)|..] && s == Frame(b) + s[|Frame(b)|..];
    FrameRoundTrip(a, s[|Frame(a)|..], false);
    FrameRoundTrip(b, s[|Frame(b)|..], false);
  }

  lemma PrefixOfBoth(a: bytes, b: bytes, s: bytes)
    requires a + b <= s
    ensures a <= s
  {
  }

  lemma FirstOfBoth(got: seq<Message>, ms: seq<Message>)
    requires got != [] && ms != [] && got[0] == ms[0] && got[1..] <= ms[1..]
    ensures got <= ms && ms[1..][|got[1..]|..] == ms[|got|..]
  {
  }

  /** Whatever part of a stream of frames arrives, the whole frames in it are the first
      ones that were sent; and what is left is the rest of the stream, cut off. */
  lemma {:induction false} FramesInOrder(ms: seq<Message>, got: seq<Message>, rest: bytes)
    requires AllGood(ms) && AllGood(got)
    requires Stream(got) + rest <= Stream(ms)
    ensures got <= ms && rest <= Stream(ms[|got|..])
  {
    if got == [] {
      assert Stream(got) + rest == rest;
    } else {
      FrameNotEmpty(got[0]);
      var tail := Stream(got[1..]) + rest;
      assert Stream(got) + rest == Frame(got[0]) + tail;
      assert Stream(ms) == Frame(ms[0]) + Stream(ms[1..]);
      hide Frame, Stream, Good;
      PrefixOfBoth(Frame(got[0]), tail, Stream(ms));
      PrefixOfBoth(Frame(ms[0]), Stream(ms[1..]), Stream(ms));
      SameFrame(got[0], ms[0], Stream(ms));
      PrefixCancel(Frame(got[0]), tail, Stream(ms[1..]));
      FramesInOrder(ms[1..], got[1..], rest);
      FirstOfBoth(got, ms);
    }
  }

  method SendOne(session: RPCSession, m: Message) returns (ghost k: nat)
    requires m.Valid()
    modifies session.client`sent, session.client`connected
    ensures k <= |Frame(m)| && session.client.sent == old(session.client.sent) + Frame(m)[..k]
    ensures session.client.connected ==> old(session.client.connected) && k == |Frame(m)|
    ensures !old(session.client.connected) ==> k == 0
    ensures old(session.client.connected) && session.client.reliable ==> session.client.connected
  {
    var p := new Protocol();
    p.magic, p.version, p.kind := m.magic, m.version, m.kind;
    p.sequenceId, p.content := m.sequence, m.content;
    var r;
    r, k := session.SendProtocol(p);
  }

  /** Frames sent one by one: the socket takes a prefix of their stream, all of it as
      long as the connection holds. */
  method SendAll(session: RPCSession, ms: seq<Message>) returns (ghost taken: bytes)
    requires forall i :: 0 <= i < |ms| ==> ms[i].Valid()
    modifies session.client`sent, session.client`connected
    ensures session.client.sent == old(session.client.sent) + taken && taken <= Stream(ms)
    ensures session.client.connected ==> taken == Stream(ms)
    ensures old(session.client.connected) && session.client.reliable ==> session.client.connected
  {
    hide Frame;
    taken := [];
    var i := 0;
    assert ms[..0] == [];
    while i < |ms|
      invariant 0 <= i <= |ms|
      invariant session.client.sent == old(session.client.sent) + taken
      invariant taken <= Stream(ms[..i]) && (session.client.connected ==> taken == Stream(ms[..i]))
      invariant old(session.client.connected) && session.client.reliable ==> session.client.connected
    {
      StreamAppend(ms[..i], ms[i]);
      assert ms[..i + 1] == ms[..i] + [ms[i]];
      ghost var k := SendOne(session, ms[i]);
      taken := taken + Frame(ms[i])[..k];
      i := i + 1;
    }
    assert ms[..|ms|] == ms;
  }

  /** Frames received until there is none: they are at the start of the stream, and a
      reliable transport leaves no good frame behind. */
  method RecvAll(session: RPCSession) returns (got: seq<Message>)
    modifies session.client`incoming, session.client`connected
    ensures AllGood(got) && Stream(got) <= old(session.client.incoming)
    ensures old(session.client.connected) && session.client.reliable ==>
      !FrameAhead(old(session.client.incoming)[|Stream(got)|..])
    ensures old(session.client.incoming) == Stream(got) ==> session.client.incoming == []
  {
    hide Frame;
    got := [];
    ghost var stream := session.client.incoming;
    while true
      invariant AllGood(got) && stream == Stream(got) + session.client.incoming
      invariant session.client.connected == old(session.client.connected)
      decreases |session.client.incoming|
    {
      ghost var ahead := session.client.incoming;
      var p := session.RecvProtocol();
      assert stream[|Stream(got)|..] == ahead;
      if p == null {
        return;
      }
      var m := p.ToMessage();
      StreamAppend(got, m);
      FrameNotEmpty(m);
      got := got + [m];
    }
  }

  /** `ms` sent from one end, some prefix of what its socket took delivered to the
      other, frames received there: never a shifted, mixed or reordered frame, and with
      a transport that always moves some bytes all of them. */
  method Transfer(sender: RPCSession, receiver: RPCSession, ms: seq<Message>) returns (got: seq<Message>)
    requires AllGood(ms) && sender.client != receiver.client
    requires sender.client.connected && receiver.client.connected
    requires sender.client.sent == [] && receiver.client.incoming == []
    requires sender.client.reliable == receiver.client.reliable
    modifies sender.client, receiver.client
    ensures got <= ms
    ensures sender.client.reliable ==> got == ms && receiver.client.incoming == []
  {
    hide Frame, Stream, FrameAhead;
    ghost var taken := SendAll(sender, ms);
    var wire := sender.client.sent;
    var n: nat :| n <= |wire| && (sender.client.reliable ==> n == |wire|);
    receiver.client.incoming := wire[..n];
    got := RecvAll(receiver);
    ghost var rest := wire[..n][|Stream(got)|..];
    assert Stream(got) + rest == wire[..n];
    FramesInOrder(ms, got, rest);
    if sender.client.reliable {
      assert wire[..n] == Stream(ms);
      NothingLeft(ms, got, rest);
    }
  }

  lemma NothingLeft(ms: seq<Message>, got: seq<Message>, rest: bytes)
    requires AllGood(ms) && AllGood(got) && Stream(got) + rest == Stream(ms) && !FrameAhead(rest)
    ensures got == ms && rest == []
  {
    FramesInOrder(ms, got, rest);
    var left := ms[|got|..];
    StreamSplit(got, left);
    assert ms == got + left;
    assert rest == Stream(left);
    if left != [] {
      FirstIsAhead(left);
    }
  }

  lemma FirstIsAhead(ms: seq<Message>)
    requires AllGood(ms) && ms != []
    ensures FrameAhead(Stream(ms))
  {
    assert Good(ms[0]) && Frame(ms[0]) <= Stream(ms);
  }

  lemma PrefixCancel(a: bytes, x: bytes, y: bytes)
    requires a + x <= a + y
    ensures x <= y
  {
    assert (a + x)[|a|..] == x && (a + y)[|a|..] == y;
    assert (a + y)[..|a + x|] == a + x;
    assert (a + y)[|a|..][..|x|] == (a + y)[..|a + x|][|a|..];
  }

  lemma StreamFirst(ms: seq<Message>)
    requires ms != [] && forall i :: 0 <= i < |ms| ==> ms[i].Valid()
    ensures Stream(ms) == Frame(ms[0]) + Stream(ms[1..])
  {
  }

  lemma Regroup(a: bytes, b: bytes, c: bytes)
    ensures a + b + c == a + (b + c)
  {
  }

  lemma {:induction false} StreamSplit(a: seq<Message>, b: seq<Message>)
    requires AllGood(a) && AllGood(b)
    ensures Stream(a + b) == Stream(a) + Stream(b)
  {
    if a == [] {
      assert a + b == b;
    } else {
      StreamFirst(a);
      StreamFirst(a + b);
      hide Frame, Stream, Good;
      StreamSplit(a[1..], b);
      assert (a + b)[1..] == a[1..] + b;
      Regroup(Frame(a[0]), Stream(a[1..]), Stream(b));
    }
  }
}
