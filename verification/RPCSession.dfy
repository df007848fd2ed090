/** `Client`, the socket wrapper, and `RPCSession`, which moves whole frames over a
    transport that takes or gives any number of bytes a call, or fails. */
module Sessions {
  import opened Bytes
  import opened Words
  import opened Wire
  import opened IoVecs
  import opened ByteArrays
  import opened Protocols

  /** One end of a connection. `sent` is what the socket has accepted so far and
      `incoming` what will still arrive; how many bytes a call moves is up to the
      transport, and a `reliable` one always moves some. */
  class Client {
    var connected: bool
    var sent: bytes
    var incoming: bytes
    const reliable: bool

    constructor (reliable: bool)
      ensures connected && sent == [] && incoming == [] && this.reliable == reliable
    {
      connected := true;
      sent := [];
      incoming := [];
      this.reliable := reliable;
    }

    method SetConnected(flag: bool)
      modifies `connected
      ensures connected == flag
    {
      connected := flag;
    }

    /** `::send`, the count or -1. */
    method Send(data: bytes) returns (n: int)
      modifies `sent
      ensures -1 <= n <= |data|
      ensures sent == old(sent) + data[..Max0(n)]
      ensures !connected ==> n == -1
      ensures connected && reliable && data != [] ==> n > 0
    {
      if !connected {
        return -1;
      }
      n :| -1 <= n <= |data| && (reliable && data != [] ==> n == |data| || n > 0);
      sent := sent + data[..Max0(n)];
    }

    /** `::sendmsg`. */
    method SendV(segs: seq<IoVec>) returns (n: int)
      requires InBounds(segs)
      modifies `sent
      ensures -1 <= n <= |old(Gathered(segs))|
      ensures sent == old(sent) + old(Gathered(segs))[..Max0(n)]
      ensures !connected ==> n == -1
      ensures connected && reliable && old(Gathered(segs)) != [] ==> n > 0
    {
      var data := Gathered(segs);
      n := Send(data);
    }

    /** `::recv` of at most `length` bytes. */
    method Recv(length: nat) returns (n: int, data: bytes)
      modifies `incoming
      ensures -1 <= n <= length && |data| == Max0(n)
      ensures old(incoming) == data + incoming
      ensures !connected ==> n == -1
      ensures connected && reliable && length > 0 && old(incoming) != [] ==> n > 0
    {
      if !connected {
        return -1, [];
      }
      var most := Min(length, |incoming|);
      n :| -1 <= n <= most && (reliable && most > 0 ==> n == most || n > 0);
      data := incoming[..Max0(n)];
      incoming := incoming[Max0(n)..];
    }

    /** `::recvmsg` into the segments. */
    method RecvV(segs: seq<IoVec>) returns (n: int, ghost data: bytes)
      requires InBounds(segs) && Disjoint(segs) && this !in Blocks(segs)
      modifies `incoming, Blocks(segs)
      ensures -1 <= n <= Total(segs) && |data| == Max0(n)
      ensures old(incoming) == data + incoming
      ensures !connected ==> n == -1
      ensures connected && reliable && Total(segs) > 0 && old(incoming) != [] ==> n > 0
      ensures forall i :: 0 <= i < |segs| ==>
        segs[i].block[..] == Splice(old(segs[i].block[..]), segs[i].offset, Share(segs, data, i))
    {
      var got: bytes;
      n, got := Recv(Total(segs));
      data := got;
      Deliver(segs, got);
    }
  }

  function Max0(n: int): nat {
    if n < 0 then 0 else n
  }

  class RPCSession {
    const client: Client

    constructor (client: Client)
      ensures this.client == client
    {
      this.client := client;
    }

    /** `read` into a buffer: the kernel fills the chunks behind the cursor in place. */
    method ReadBuffer(buffer: ByteArray, length: nat) returns (n: int, ghost data: bytes)
      requires buffer.Valid() && client !in buffer.Repr
      modifies client`incoming, buffer.Repr
      ensures buffer.Valid() && fresh(buffer.Repr - old(buffer.Repr)) && buffer.littleEndian == old(buffer.littleEndian)
      ensures -1 <= n <= length && |data| == Max0(n)
      ensures old(client.incoming) == data + client.incoming
      ensures buffer.position == old(buffer.position) + |data|
      ensures buffer.size == Max(old(buffer.size), buffer.position)
      ensures Written(old(buffer.Mem()), buffer.Mem(), old(buffer.position), data)
      ensures !client.connected ==> n == -1
      ensures client.connected && client.reliable && length > 0 && old(client.incoming) != [] ==> n > 0
    {
      hide ByteArray.Links, ByteArray.Holds, ByteArray.IsWindow, Gathered, Total, InBounds, Disjoint, Blocks;
      hide Splice, Written;
      buffer.MemIsWhole();
      if !client.connected {
        data := [];
        return -1, [];
      }
      ghost var mem := buffer.Mem();
      var segs, total := buffer.GetWriteBuffers(length);
      buffer.MemIsWhole();
      ghost var grown := buffer.Mem();
      n, data := Fill(buffer, segs, length);
      SpliceWrites(mem, grown, buffer.position, data);
      if n > 0 {
        var ok := buffer.SetPosition(buffer.position + n);
      }
    }

    /** `recvmsg` into the segments of `getWriteBuffers`, which are the buffer's own
        memory. */
    method Fill(buffer: ByteArray, segs: seq<IoVec>, length: nat) returns (n: int, ghost data: bytes)
      requires buffer.Valid() && client !in buffer.Repr
      requires buffer.position + length <= buffer.capacity && buffer.IsWindow(segs, length)
      requires InBounds(segs) && Disjoint(segs) && Total(segs) == length && Blocks(segs) <= buffer.Repr
      modifies client`incoming, buffer`chunks, Blocks(segs)
      ensures buffer.Valid()
      ensures unchanged(buffer`position, buffer`size, buffer`capacity, buffer`littleEndian, buffer`Repr)
      ensures client.connected == old(client.connected)
      ensures -1 <= n <= length && |data| == Max0(n)
      ensures old(client.incoming) == data + client.incoming
      ensures buffer.Mem() == Splice(old(buffer.Mem()), buffer.position, data)
      ensures !client.connected ==> n == -1
      ensures client.connected && client.reliable && length > 0 && old(client.incoming) != [] ==> n > 0
    {
      n, data := Scatter(buffer, segs, length);
      buffer.Absorb(segs, length, data);
    }

    method Scatter(buffer: ByteArray, segs: seq<IoVec>, ghost length: nat) returns (n: int, ghost data: bytes)
      requires buffer.Valid() && client !in buffer.Repr
      requires buffer.position + length <= buffer.capacity && buffer.IsWindow(segs, length)
      requires InBounds(segs) && Disjoint(segs) && Total(segs) == length && Blocks(segs) <= buffer.Repr
      modifies client`incoming, Blocks(segs)
      ensures unchanged(buffer) && buffer.Links()
      ensures |buffer.chunks| == |buffer.nodes|
      ensures forall i :: 0 <= i < |buffer.nodes| ==>
        buffer.nodes[i].ptr[..] == Filled(buffer.chunks, buffer.at, segs, data)[i]
      ensures -1 <= n <= length && |data| == Max0(n)
      ensures old(client.incoming) == data + client.incoming
      ensures !client.connected ==> n == -1
      ensures client.connected && client.reliable && length > 0 && old(client.incoming) != [] ==> n > 0
    {
      buffer.WindowBlocks(segs, length);
      hide ByteArray.Valid, ByteArray.IsWindow, ByteArray.Links, ByteArray.Holds, ByteArray.Segments;
      hide Share, Splice, Disjoint, Filled, Blocks, Total, InBounds, ByteArray.Mem, ByteArray.Chain;
      ghost var ns, cs, at := buffer.nodes, buffer.chunks, buffer.at;
      n, data := client.RecvV(segs);
      forall i | 0 <= i < |ns|
        ensures ns[i].ptr[..] == Filled(cs, at, segs, data)[i]
      {
        FilledAt(cs, at, segs, data, i);
        if at <= i < at + |segs| {
          ghost var j: nat := i - at;
          assert segs[j].block == ns[i].ptr;
        } else {
          assert ns[i].ptr !in Blocks(segs);
        }
      }
    }

    /** `write` from a buffer: the kernel takes bytes from the chunks in place. */
    method WriteBuffer(buffer: ByteArray, length: nat) returns (n: int)
      requires buffer.Valid() && client !in buffer.Repr
      modifies client`sent, buffer`position, buffer`size, buffer`cur, buffer`at
      ensures buffer.Valid() && buffer.size == old(buffer.size)
      ensures -1 <= n <= Min(length, |old(buffer.Readable())|)
      ensures buffer.position == old(buffer.position) + Max0(n)
      ensures client.sent == old(client.sent) + old(buffer.Readable())[..Max0(n)]
      ensures !client.connected ==> n == -1
      ensures client.connected && client.reliable && length > 0 && old(buffer.Readable()) != [] ==> n > 0
    {
      hide ByteArray.Links, ByteArray.Holds, Gathered, Total, InBounds, Disjoint, Blocks;
      if !client.connected {
        return -1;
      }
      var segs, total := buffer.GetReadBuffers(length);
      n := client.SendV(segs);
      if n > 0 {
        var ok := buffer.SetPosition(buffer.position + n);
      }
    }

    // ---- whole transfers ----

    /** `readFixSize` into a buffer: all of `length`, or the connection is given up. */
    method ReadFixSizeBuffer(buffer: ByteArray, length: nat) returns (r: int, ghost data: bytes)
      requires buffer.Valid() && client !in buffer.Repr
      modifies client`incoming, client`connected, buffer.Repr
      ensures buffer.Valid() && fresh(buffer.Repr - old(buffer.Repr)) && buffer.littleEndian == old(buffer.littleEndian)
      ensures old(client.incoming) == data + client.incoming && |data| <= length
      ensures buffer.position == old(buffer.position) + |data|
      ensures buffer.size == Max(old(buffer.size), buffer.position)
      ensures Written(old(buffer.Mem()), buffer.Mem(), old(buffer.position), data)
      ensures if |data| == length then r == length && client.connected == old(client.connected)
              else r <= 0 && !client.connected
      ensures !old(client.connected) ==> data == []
      ensures old(client.connected) && client.reliable && length <= |old(client.incoming)| ==> |data| == length
    {
      hide ByteArray.Links, ByteArray.Holds, Written;
      buffer.MemIsWhole();
      ghost var mem, stream := buffer.Mem(), client.incoming;
      var left := length;
      data := [];
      while left > 0
        invariant buffer.Valid() && fresh(buffer.Repr - old(buffer.Repr)) && client !in buffer.Repr
        invariant buffer.littleEndian == old(buffer.littleEndian) && client.connected == old(client.connected)
        invariant 0 <= left && |data| + left == length && stream == data + client.incoming
        invariant !client.connected ==> data == []
        invariant buffer.position == old(buffer.position) + |data|
        invariant buffer.size == Max(old(buffer.size), buffer.position)
        invariant Written(mem, buffer.Mem(), old(buffer.position), data)
      {
        ghost var before := buffer.Mem();
        var n;
        ghost var got;
        n, got := ReadBuffer(buffer, left);
        WrittenTwice(mem, before, buffer.Mem(), old(buffer.position), data, got);
        data := data + got;
        if n <= 0 {
          client.SetConnected(false);
          return n, data;
        }
        left := left - n;
      }
      r := length;
    }

    /** `writeFixSize` from a buffer. */
    method WriteFixSizeBuffer(buffer: ByteArray, length: nat) returns (r: int)
      requires buffer.Valid() && client !in buffer.Repr
      modifies client`sent, client`connected, buffer`position, buffer`size, buffer`cur, buffer`at
      ensures buffer.Valid() && buffer.size == old(buffer.size)
      ensures old(buffer.position) <= buffer.position <= old(buffer.position) + length
      ensures client.sent == old(client.sent) + old(buffer.Readable())[..buffer.position - old(buffer.position)]
      ensures if buffer.position == old(buffer.position) + length
              then r == length && client.connected == old(client.connected)
              else r <= 0 && !client.connected
      ensures !old(client.connected) ==> buffer.position == old(buffer.position)
      ensures old(client.connected) && client.reliable && length <= |old(buffer.Readable())| ==>
        buffer.position == old(buffer.position) + length
    {
      hide ByteArray.Links, ByteArray.Holds;
      ghost var readable, start := buffer.Readable(), buffer.position;
      var left := length;
      while left > 0
        invariant buffer.Valid() && client.connected == old(client.connected)
        invariant buffer.size == old(buffer.size) && buffer.Mem() == old(buffer.Mem())
        invariant 0 <= left && buffer.position + left == start + length && start <= buffer.position
        invariant client.sent == old(client.sent) + readable[..buffer.position - start]
        invariant !client.connected ==> buffer.position == start
      {
        ghost var done := buffer.position - start;
        buffer.MemIsWhole();
        assert buffer.Readable() == readable[done..];
        var n := WriteBuffer(buffer, left);
        assert readable[..done] + readable[done..][..Max0(n)] == readable[..done + Max0(n)];
        if n <= 0 {
          client.SetConnected(false);
          return n;
        }
        left := left - n;
      }
      r := length;
    }

    /** `readFixSize` into a plain buffer. */
    method ReadFixSize(length: nat) returns (r: int, data: bytes)
      modifies client`incoming, client`connected
      ensures old(client.incoming) == data + client.incoming && |data| <= length
      ensures if |data| == length then r == length && client.connected == old(client.connected)
              else r <= 0 && !client.connected
      ensures old(client.connected) && client.reliable && length <= |old(client.incoming)| ==> |data| == length
    {
      data := [];
      var left := length;
      while left > 0
        invariant 0 <= left && |data| + left == length && old(client.incoming) == data + client.incoming
        invariant client.connected == old(client.connected)
      {
        var n, got := client.Recv(left);
        data := data + got;
        if n <= 0 {
          client.SetConnected(false);
          return n, data;
        }
        left := left - n;
      }
      r := length;
    }

    /** `writeFixSize` from a plain buffer; `k` bytes have been taken. */
    method WriteFixSize(data: bytes) returns (r: int, ghost k: nat)
      modifies client`sent, client`connected
      ensures k <= |data| && client.sent == old(client.sent) + data[..k]
      ensures if k == |data| then r == |data| && client.connected == old(client.connected)
              else r <= 0 && !client.connected
      ensures !old(client.connected) ==> k == 0
      ensures old(client.connected) && client.reliable ==> k == |data|
    {
      var offset, left := 0, |data|;
      k := 0;
      while left > 0
        invariant 0 <= left && k == offset && offset + left == |data|
        invariant client.sent == old(client.sent) + data[..offset]
        invariant client.connected == old(client.connected) && (!client.connected ==> offset == 0)
      {
        var n := client.Send(data[offset..]);
        assert data[..offset] + data[offset..][..Max0(n)] == data[..offset + Max0(n)];
        k := k + Max0(n);
        if n <= 0 {
          client.SetConnected(false);
          return n, k;
        }
        offset := offset + n;
        left := left - n;
      }
      r := |data|;
    }

    // ---- frames ----

    /** `sendProtocol`: `k` bytes of the frame have been taken by the socket. */
    method SendProtocol(proto: Protocol) returns (r: int, ghost k: nat)
      requires proto.Valid()
      modifies client`sent, client`connected
      ensures
        var frame := Frame(proto.ToMessage());
        && k <= |frame| && client.sent == old(client.sent) + frame[..k]
        && (if k == |frame| then r > 0 && client.connected == old(client.connected) else r <= 0 && !client.connected)
        && (!old(client.connected) ==> k == 0)
        && (old(client.connected) && client.reliable ==> k == |frame|)
    {
      hide Frame;
      FrameNotEmpty(proto.ToMessage());
      var buffer := proto.Encode();
      ghost var frame := Frame(proto.ToMessage());
      r := WriteFixSizeBuffer(buffer, buffer.size - buffer.position);
      k := buffer.position;
    }

    /** `recvProtocol`: a frame taken off the stream whole, or nothing. */
    method RecvProtocol() returns (proto: Protocol?)
      modifies client`incoming, client`connected
      ensures proto != null ==>
        && fresh(proto) && Good(proto.ToMessage()) && proto.contentLength == |proto.content|
        && old(client.incoming) == Frame(proto.ToMessage()) + client.incoming
        && client.connected && old(client.connected)
      ensures |client.incoming| <= |old(client.incoming)|
      ensures proto == null && client.connected ==>
        BadMagic(old(client.incoming)) && client.incoming == old(client.incoming)[BASE_LENGTH..]
      ensures old(client.connected) && client.reliable && FrameAhead(old(client.incoming)) ==> proto != null
    {
      ghost var stream := client.incoming;
      if FrameAhead(stream) {
        FrameAheadIsWhole(stream);
      }
      var p, r := RecvMeta();
      if r <= 0 || p.magic != MAGIC {
        return null;
      }
      if p.contentLength == 0 {
        OneTurn(0, W32);
        assert Frame(p.ToMessage()) == stream[..BASE_LENGTH];
        return p;
      }
      var s, buff := ReadFixSize(p.contentLength);
      if s <= 0 {
        return null;
      }
      p.content := buff;
      OneTurn(|buff|, W32);
      assert Frame(p.ToMessage()) == stream[..BASE_LENGTH] + buff;
      proto := p;
    }

    /** The header part of `recvProtocol`. */
    method RecvMeta() returns (p: Protocol, r: int)
      modifies client`incoming, client`connected
      ensures fresh(p) && p.content == [] && |client.incoming| <= |old(client.incoming)|
      ensures r > 0 ==>
        && client.connected && old(client.connected)
        && |old(client.incoming)| >= BASE_LENGTH && client.incoming == old(client.incoming)[BASE_LENGTH..]
        && p.Valid() && IsUnsigned(p.contentLength, W32) && p.magic == old(client.incoming)[0]
        && p.contentLength == MetaLength(old(client.incoming))
        && old(client.incoming)[..BASE_LENGTH] == [p.magic, p.version, p.kind]
             + EncodeFixed(p.sequenceId, W32, false) + EncodeFixed(p.contentLength, W32, false)
      ensures r <= 0 ==> !client.connected
      ensures old(client.connected) && client.reliable && |old(client.incoming)| >= BASE_LENGTH ==> r > 0
    {
      hide ByteArray.Links, ByteArray.Holds, ByteArray.InChunk, ByteArray.NodeAt, Written;
      p := new Protocol();
      var byteArray := new ByteArray(BLOCK);
      ghost var before := byteArray.Mem();
      ghost var header;
      r, header := ReadFixSizeBuffer(byteArray, BASE_LENGTH);
      if r <= 0 {
        return;
      }
      byteArray.MemIsWhole();
      WrittenAtStart(before, byteArray.Mem(), header);
      var ok := byteArray.SetPosition(0);
      MetaOfAnyBytes(header);
      var d := p.DecodeMeta(byteArray);
    }
  }

  lemma WrittenAtStart(m: bytes, m': bytes, bs: bytes)
    requires Written(m, m', 0, bs)
    ensures |bs| <= |m'| && m'[..|bs|] == bs
  {
  }

  /** The content length the header at the start of `stream` tells. */
  function MetaLength(stream: bytes): nat
    requires |stream| >= BASE_LENGTH
  {
    var d := ParseMeta(stream[..BASE_LENGTH], false);
    if d.Done? then d.value.1 else 0
  }

  /** A frame at the start of the stream is there to its last byte. */
  lemma FrameAheadIsWhole(stream: bytes)
    requires FrameAhead(stream)
    ensures |stream| >= BASE_LENGTH && stream[0] == MAGIC && BASE_LENGTH + MetaLength(stream) <= |stream|
  {
    var m: Message :| Good(m) && Frame(m) <= stream;
    assert stream[..BASE_LENGTH] == Header(m) + [];
    ParseMetaOf(m, []);
    OneTurn(|m.content|, W32);
  }

  /** The frame at the start of a stream that has all arrived. */
  function Received(stream: bytes): Option<Message> {
    if |stream| < BASE_LENGTH || stream[0] != MAGIC || |stream| < BASE_LENGTH + MetaLength(stream) then None
    else
      match ParseMeta(stream[..BASE_LENGTH], false)
      case Done((h, n), _) =>
        Some(Message(h.magic, h.version, h.kind, h.sequence, stream[BASE_LENGTH..BASE_LENGTH + n]))
      case _ => None
  }

  /** It is the one good frame the stream starts with. */
  lemma ReceivedExactly(stream: bytes, m: Message)
    ensures Received(stream) == Some(m) <==> Good(m) && Frame(m) <= stream
  {
    if Good(m) && Frame(m) <= stream {
      AheadIsReceived(stream, m);
    }
    if Received(stream) == Some(m) {
      ReceivedIsAhead(stream, m);
    }
  }

  lemma AheadIsReceived(stream: bytes, m: Message)
    requires Good(m) && Frame(m) <= stream
    ensures Received(stream) == Some(m)
  {
    hide Header;
    assert stream[..BASE_LENGTH] == Header(m) + [];
    ParseMetaOf(m, []);
    OneTurn(|m.content|, W32);
    assert stream[0] == Header(m)[0];
    StartsWithMagic(m);
    assert stream[BASE_LENGTH..BASE_LENGTH + |m.content|] == m.content;
  }

  lemma StartsWithMagic(m: Message)
    requires m.Valid()
    ensures Header(m)[0] == m.magic
  {
  }

  lemma ReceivedIsAhead(stream: bytes, m: Message)
    requires Received(stream) == Some(m)
    ensures Good(m) && Frame(m) <= stream
  {
    var header := stream[..BASE_LENGTH];
    MetaOfAnyBytes(header);
    OneTurn(|m.content|, W32);
    assert header == Header(m);
    assert header + m.content == stream[..BASE_LENGTH + |m.content|];
  }

  lemma ReceivesAhead(stream: bytes)
    ensures Received(stream).Some? <==> FrameAhead(stream)
  {
    if Received(stream).Some? {
      ReceivedExactly(stream, Received(stream).value);
    }
    if FrameAhead(stream) {
      var m: Message :| Good(m) && Frame(m) <= stream;
      ReceivedExactly(stream, m);
    }
  }

  lemma FrameNotEmpty(m: Message)
    requires m.Valid()
    ensures |Frame(m)| >= BASE_LENGTH
  {
  }

  /** The stream starts with a whole header of the wrong magic. */
  predicate BadMagic(stream: bytes) {
    |stream| >= BASE_LENGTH && stream[0] != MAGIC
  }

  /** The stream starts with a whole frame of the right magic. */
  ghost predicate FrameAhead(stream: bytes) {
    exists m: Message :: Good(m) && Frame(m) <= stream
  }

  /** A frame `recvProtocol` can take off the stream. */
  ghost predicate Good(m: Message) {
    m.Valid() && m.magic == MAGIC && |m.content| < Modulus(W32)
  }
}
