/** `RPCServer` and `RPCClient`: the methods that move the bytes, against the functions
    of `Rpc`. */
module RpcPeers {
  import opened Bytes
  import opened Words
  import opened Codec
  import opened ByteArrays
  import opened Serializers
  import opened Protocols
  import opened Sessions
  import opened Rpc
  import opened Wire

  /** `<<` of an `RPCResult`. */
  method WriteResult(s: Serializer, ret: Ty, code: nat, msg: bytes, v: Value)
    requires s.byteArray.Valid() && !s.byteArray.littleEndian && IsResult(ret, code, msg, v)
    modifies s.byteArray.Repr
    ensures s.byteArray.Wrote(EncodeResult(ret, code, msg, v))
  {
    hide ByteArray.Valid, ByteArray.Snap, ByteArray.Mem, WrittenSince, Encode, EncodeScalar, EncodeString;
    CodeTakesTwo(code);
    var b := s.byteArray;
    ghost var s0 := b.Snap();
    s.WriteScalar(CODE.scalar, code);
    ghost var s1 := b.Snap();
    b.WriteStringVint(msg);
    WrittenMore(s0, s1, b.Snap(), b.baseSize, EncodeScalar(CODE.scalar, code, false), EncodeString(msg));
    ghost var s2 := b.Snap();
    s.Write(ret, v);
    WrittenMore(s0, s2, b.Snap(), b.baseSize,
                EncodeScalar(CODE.scalar, code, false) + EncodeString(msg), Encode(ret, v, false));
  }

  /** `>>` of an `RPCResult`. */
  method ReadResult(s: Serializer, ret: Ty) returns (r: Read<(nat, bytes, Option<Value>)>)
    requires s.byteArray.Valid() && !s.byteArray.littleEndian
    modifies s.byteArray`position, s.byteArray`cur, s.byteArray`at
    ensures r == DecodeResult(ret, old(s.byteArray.Readable()), old(s.byteArray.Tight())).Result()
  {
    hide ByteArray.Valid, ByteArray.Readable, ByteArray.Mem, Decode, DecodeScalar, DecodeString;
    var code := s.ReadScalar(CODE.scalar);
    if !code.Value? {
      return if code.OutOfRange? then OutOfRange else NullChunk;
    }
    var msg := s.byteArray.ReadStringVint();
    if !msg.Value? {
      return if msg.OutOfRange? then OutOfRange else NullChunk;
    }
    if code.value == 0 {
      var v := s.Read(ret);
      r := if v.Value? then Value((0, msg.value, Some(v.value))) else if v.OutOfRange? then OutOfRange else NullChunk;
    } else {
      r := Value((if code.value < 0 then 0 else code.value, msg.value, None));
    }
  }

  class RPCServer {
    var handlers: map<bytes, Handler>

    constructor ()
      ensures handlers == map[]
    {
      handlers := map[];
    }

    /** A later registration of a name replaces the earlier one. */
    method RegisterMethod(name: bytes, func: Handler)
      requires func.Valid() && ValidTable(handlers)
      modifies this
      ensures handlers == old(handlers)[name := func] && ValidTable(handlers)
    {
      handlers := handlers[name := func];
    }

    /** `proxy`: the answer goes into the buffer the caller's serializer shares. */
    method Proxy(func: Handler, serializer: Serializer, arg: bytes) returns (r: Served<()>)
      requires func.Valid() && serializer.byteArray.Valid() && !serializer.byteArray.littleEndian
      modifies serializer.byteArray.Repr
      ensures
        match Proxied(func, arg)
        case Reply(c) => r == Reply(()) && serializer.byteArray.Wrote(c)
        case Thrown => r == Thrown
        case Crashed => r == Crashed
    {
      hide ByteArray.Valid, ByteArray.Snap, WrittenSince, EncodeResult, Decode, WellTyped, ParamsNotMatch, RowData;
      var ok, s := FromBytes(arg);
      if !ok {
        return Thrown;
      }
      var args := s.Read(func.params);
      if args.NullChunk? {
        return Crashed;
      }
      if args.OutOfRange? {
        WriteResult(serializer, func.ret, RPC_NO_MATCH, ParamsNotMatch(), func.unset);
      } else {
        WriteResult(serializer, func.ret, RPC_SUCCESS, [], func.f(args.value));
      }
      return Reply(());
    }

    /** `call`. */
    method Call(name: bytes, arg: bytes) returns (r: Served<Serializer>)
      requires ValidTable(handlers)
      ensures
        match Called(handlers, name, arg)
        case Reply(c) => r.Reply? && fresh(r.value.byteArray.Repr) && HoldsExactly(r.value.byteArray, BLOCK, c)
        case Thrown => r == Thrown
        case Crashed => r == Crashed
    {
      hide ByteArray.Links, ByteArray.Holds, ByteArray.InChunk, ByteArray.NodeAt, Proxied;
      var serializer := Create();
      if name !in handlers {
        assert serializer.byteArray.Readable() == [];
        return Reply(serializer);
      }
      var answer := Proxy(handlers[name], serializer, arg);
      match answer
      case Thrown => return Thrown;
      case Crashed => return Crashed;
      case Reply(_) =>
        serializer.Reset();
        serializer.byteArray.TightWhenFull();
        return Reply(serializer);
    }

    /** `handleMethodCall`: `Thrown` also where the name cannot be read. */
    method HandleMethodCall(proto: Protocol) returns (r: Served<Protocol>)
      requires ValidTable(handlers) && proto.Valid()
      ensures
        match Handled(handlers, proto.content)
        case Reply(c) =>
          && r.Reply? && fresh(r.value) && r.value.Valid()
          && r.value.ToMessage() == Message(9, 1, 6, proto.sequenceId, c)
        case Thrown => r == Thrown
        case Crashed => r == Crashed
    {
      hide ByteArray.Valid, ByteArray.Mem, ByteArray.Readable, Called, DecodeString, RowData;
      var ok, request := FromBytes(proto.content);
      if !ok {
        return Thrown;
      }
      var name := request.byteArray.ReadStringVint();
      if !name.Value? {
        return if name.OutOfRange? then Thrown else Crashed;
      }
      var arg := request.ToString();
      var rt := Call(name.value, arg);
      match rt
      case Thrown => return Thrown;
      case Crashed => return Crashed;
      case Reply(answer) =>
        var content := answer.ToString();
        var resp := Protocol.Create(RPC_METHOD_RESPONSE, content, proto.sequenceId);
        return Reply(resp);
    }

    /** `publish_client_msg`: the response that the submitted task is to send, if there is
        one and the client is still connected. */
    method PublishClientMsg(client: Client, bt: ByteArray) returns (r: Served<Protocol?>)
      requires ValidTable(handlers) && bt.Valid() && this !in bt.Repr
      modifies bt`position, bt`cur, bt`at
      ensures
        match Published(handlers, old(bt.Readable()), bt.littleEndian, old(bt.Tight()))
        case Reply(None) => r == Reply(null)
        case Reply(Some(m)) =>
          if client.connected then r.Reply? && r.value != null && r.value.Valid() && r.value.ToMessage() == m
          else r == Reply(null)
        case Thrown => r == Thrown
        case Crashed => r == Crashed
    {
      hide ByteArray.Valid, ByteArray.Mem, ByteArray.Readable, Handled, ParseFrame;
      var proto := new Protocol();
      var d := proto.Decode(bt);
      if d.OutOfRange? {
        return Reply(null);
      }
      if d.NullChunk? {
        return Crashed;
      }
      if proto.magic != MAGIC {
        return Reply(null);
      }
      if proto.kind == RPC_METHOD_REQUEST {
        var resp := HandleMethodCall(proto);
        match resp
        case Reply(p) => return Reply(if client.connected then p else null);
        case Thrown => return Thrown;
        case Crashed => return Crashed;
      }
      return Reply(null);
    }
  }

  class RPCClient {
    const session: RPCSession
    var isClosed: bool

    constructor (session: RPCSession)
      ensures this.session == session && isClosed
    {
      this.session := session;
      isClosed := true;
    }

    /** `call` up to the request's last byte: what the caller gets if that fails. */
    method SendRequest(s: Serializer) returns (failure: Option<Outcome>)
      requires s.byteArray.Valid()
      modifies session.client`sent, session.client`connected
      ensures isClosed ==>
        failure == Some(Failed(4, SocketClosed())) && session.client.sent == old(session.client.sent)
      ensures !isClosed ==> failure == None || failure == Some(Failed(1, NotSent()))
      ensures old(session.client.sent) <= session.client.sent
        <= old(session.client.sent) + RequestFrame(old(s.byteArray.Readable()))
      ensures failure == None && session.client.connected ==>
        session.client.sent == old(session.client.sent) + RequestFrame(old(s.byteArray.Readable()))
      ensures !isClosed && old(session.client.connected) && session.client.reliable ==>
        failure == None && session.client.connected
    {
      hide Frame, SocketClosed, NotSent, ByteArray.Valid, ByteArray.Mem, ByteArray.Readable;
      if isClosed {
        return Some(Failed(RPC_CLOSED, SocketClosed()));
      }
      var content := s.ToString();
      var data := Protocol.Create(RPC_METHOD_REQUEST, content, 0);
      var ret;
      ghost var k;
      ret, k := session.SendProtocol(data);
      failure := if ret < 0 then Some(Failed(RPC_FAIL, NotSent())) else None;
    }

    /** The content of a response read back: the serializer outside the `try`, the reading
        inside. */
    method Conclude(ret: Ty, content: bytes) returns (r: Outcome)
      requires content != []
      ensures r == Understood(ret, content)
      ensures |content| < 0x8000_0000 && DecodeResult(ret, content, Full(|content|, BLOCK)).Throws? ==>
        r == Result(2, ReturnNotMatch(), None)
    {
      RowDataExactly(content);
      hide NotFound, ReturnNotMatch, DecodeResult, RowData, ByteArray.Valid, ByteArray.Mem, ByteArray.Readable;
      var ok, serializer := FromBytes(content);
      if !ok {
        return Escaped;
      }
      var d := ReadResult(serializer, ret);
      r := match d
        case Value((code, msg, v)) => Result(code, msg, v)
        case OutOfRange => Failed(RPC_NO_MATCH, ReturnNotMatch())
        case NullChunk => Died;
    }

    /** `call` from there on: the response, if one arrives. */
    method AwaitResponse(ret: Ty) returns (r: Outcome)
      modifies session.client`incoming, session.client`connected
      ensures r == Failed(1, NoResponse())
        || (old(session.client.connected)
            && Concluded(ret, old(session.client.incoming), session.client.incoming, r))
      ensures old(session.client.connected) && session.client.reliable ==>
        r == match Received(old(session.client.incoming))
          case Some(m) => Understood(ret, m.content)
          case None => Failed(1, NoResponse())
    {
      hide Frame, Good, Received, NoResponse, NotFound, ReadBack, RowData;
      ghost var stream := session.client.incoming;
      ReceivesAhead(stream);
      var resp := session.RecvProtocol();
      if resp == null {
        return Failed(RPC_FAIL, NoResponse());
      }
      ghost var m := resp.ToMessage();
      if resp.content == [] {
        r := Failed(RPC_NO_METHOD, NotFound());
      } else {
        r := Conclude(ret, resp.content);
      }
      assert r == Understood(ret, m.content);
      ReceivedExactly(stream, m);
    }

    /** `call`: the name and the argument tuple serialised and sent, the answer read. */
    method Call(name: bytes, ty: Ty, args: Value, ret: Ty) returns (r: Outcome)
      requires |name| < Modulus(W64) && WellTyped(ty, args)
      modifies session.client`sent, session.client`incoming, session.client`connected
      ensures isClosed ==> r == Failed(4, SocketClosed()) && session.client.sent == old(session.client.sent)
      ensures !isClosed ==>
        || r == Failed(1, NotSent())
        || r == Failed(1, NoResponse())
        || (session.client.sent == old(session.client.sent) + RequestFrame(RequestContent(name, ty, args))
            && Concluded(ret, old(session.client.incoming), session.client.incoming, r))
    {
      hide RequestFrame, SocketClosed, NotSent, NoResponse, Concluded, RequestContent, WellTyped, ByteArray.Valid;
      var s := SerializeRequest(name, ty, args);
      var failure := SendRequest(s);
      if failure.Some? {
        return failure.value;
      }
      r := AwaitResponse(ret);
    }
  }

  /** The client took one whole frame off the stream, and `r` is what it made of it. */
  ghost predicate Concluded(ret: Ty, before: bytes, after: bytes, r: Outcome) {
    exists m: Message :: Good(m) && before == Frame(m) + after && r == Understood(ret, m.content)
  }

  /** `s << name << args; s.reset()`. */
  method SerializeRequest(name: bytes, ty: Ty, args: Value) returns (s: Serializer)
    requires |name| < Modulus(W64) && WellTyped(ty, args)
    ensures fresh(s.byteArray.Repr) && HoldsExactly(s.byteArray, BLOCK, RequestContent(name, ty, args))
  {
    hide ByteArray.Links, ByteArray.Holds, WrittenSince, Encode;
    s := Create();
    ghost var s0 := s.byteArray.Snap();
    s.Write(Text, Str(name));
    ghost var s1 := s.byteArray.Snap();
    s.Write(ty, args);
    WrittenMore(s0, s1, s.byteArray.Snap(), BLOCK, Encode(Text, Str(name), false), Encode(ty, args, false));
    Protocol.Rewind(s.byteArray, RequestContent(name, ty, args), s0);
  }

  /** One exchange: the request travels as one batch, the server answers it, and some part
      of the response travels back. The outcome is the one that the laws speak of, or one
      of the two by which the client says that the connection failed; it is the former on
      transports that always move some bytes. */
  method Exchange(client: RPCClient, server: RPCServer, peer: Client, name: bytes, ty: Ty, args: Value, ret: Ty)
    returns (r: Option<Outcome>)
    requires |name| < Modulus(W64) && WellTyped(ty, args) && ValidTable(server.handlers)
    requires !client.isClosed && client.session.client.connected && peer.connected && peer != client.session.client
    requires client.session.client.sent == client.session.client.incoming == [] && peer.sent == []
    modifies client.session.client, peer
    ensures
      || r == EndToEnd(server.handlers, RequestContent(name, ty, args), ret)
      || r == Some(Failed(1, NotSent()))
      || r == Some(Failed(1, NoResponse()))
    ensures client.session.client.reliable && peer.reliable ==>
      r == EndToEnd(server.handlers, RequestContent(name, ty, args), ret)
  {
    hide Answer, Concluding, RequestContent, RequestFrame, ValidTable, NotSent, NoResponse;
    hide ByteArray.Valid, ByteArray.Mem, ByteArray.Readable;
    ghost var content := RequestContent(name, ty, args);
    var failure, batch := Ask(client, name, ty, args);
    if failure.Some? {
      return failure;
    }
    var resp := Answering(server, peer, batch, content);
    match resp
    case Thrown => return None;
    case Crashed => return Some(Died);
    case Reply(p) =>
      if p == null {
        return None;
      }
      var o := Answered(client, peer, p, ret);
      r := Some(o);
  }

  /** The request sent, and all of it delivered to a fresh buffer; or how the call fails. */
  method Ask(client: RPCClient, name: bytes, ty: Ty, args: Value) returns (failure: Option<Outcome>, batch: ByteArray)
    requires |name| < Modulus(W64) && WellTyped(ty, args)
    requires !client.isClosed && client.session.client.connected && client.session.client.sent == []
    modifies client.session.client`sent, client.session.client`incoming, client.session.client`connected
    ensures failure.Some? ==>
      failure == Some(Failed(1, NotSent())) || failure == Some(Failed(1, NoResponse()))
    ensures failure == None ==>
      && client.session.client.connected && fresh(batch.Repr)
      && HoldsExactly(batch, BLOCK, RequestFrame(RequestContent(name, ty, args)))
    ensures client.session.client.reliable ==> failure == None
  {
    hide ByteArray.Valid, ByteArray.Mem, ByteArray.Readable, WellTyped, RequestContent, RequestFrame, Concluded;
    hide NotSent, NoResponse;
    var s := SerializeRequest(name, ty, args);
    failure := client.SendRequest(s);
    batch := Deliver(client.session.client.sent);
    if failure == None && !client.session.client.connected {
      var o := client.AwaitResponse(ty);
      failure := Some(o);
    }
  }

  /** `receive_data`: what arrived in a fresh buffer. */
  method Deliver(data: bytes) returns (batch: ByteArray)
    ensures fresh(batch.Repr) && HoldsExactly(batch, BLOCK, data)
  {
    hide ByteArray.Links, ByteArray.Holds, WrittenSince;
    batch := new ByteArray(BLOCK);
    ghost var s := batch.Snap();
    batch.Write(data);
    Protocol.Rewind(batch, data, s);
  }

  method Answering(server: RPCServer, peer: Client, batch: ByteArray, ghost content: bytes)
    returns (resp: Served<Protocol?>)
    requires ValidTable(server.handlers) && peer.connected
    requires HoldsExactly(batch, BLOCK, RequestFrame(content)) && server !in batch.Repr
    modifies batch`position, batch`cur, batch`at
    ensures
      match Answer(server.handlers, content)
      case Reply(None) => resp == Reply(null)
      case Reply(Some(m)) => resp.Reply? && resp.value != null && resp.value.Valid() && resp.value.ToMessage() == m
      case Thrown => resp == Thrown
      case Crashed => resp == Crashed
  {
    hide ByteArray.Valid, ByteArray.Mem, ByteArray.Readable, RequestFrame, Published, ValidTable, Frame;
    resp := server.PublishClientMsg(peer, batch);
  }

  /** The response sent, some of it delivered, and read. */
  method Answered(client: RPCClient, peer: Client, p: Protocol, ret: Ty) returns (o: Outcome)
    requires p.Valid() && client.session.client.connected && peer.connected && peer.sent == []
    requires peer != client.session.client
    modifies client.session.client, peer
    ensures o == Concluding(ret, p.ToMessage()) || o == Failed(1, NoResponse())
    ensures client.session.client.reliable && peer.reliable ==> o == Concluding(ret, p.ToMessage())
  {
    hide Frame, Understood, NoResponse, Received, Concluded;
    ghost var frame := Frame(p.ToMessage());
    var session := new RPCSession(peer);
    var n;
    ghost var k;
    n, k := session.SendProtocol(p);
    var wire := peer.sent;
    var arrived: nat :| arrived <= |wire| && (client.session.client.reliable ==> arrived == |wire|);
    client.session.client.incoming := wire[..arrived];
    assert k == |frame| ==> wire == frame;
    assert arrived == |wire| ==> wire[..arrived] == wire;
    o := client.AwaitResponse(ret);
    ConcludedFromFrame(ret, p.ToMessage(), wire[..arrived], client.session.client.incoming, o);
  }

  /** A frame taken off a part of a frame is the one a client takes off all of it. */
  lemma ConcludedFromFrame(ret: Ty, m: Message, before: bytes, after: bytes, o: Outcome)
    requires m.Valid() && before <= Frame(m)
    ensures Concluded(ret, before, after, o) ==> o == Concluding(ret, m)
  {
    hide Frame, Understood, NoResponse, Received;
    if Concluded(ret, before, after, o) {
      var p: Message :| Good(p) && before == Frame(p) + after && o == Understood(ret, p.content);
      assert Frame(p) <= Frame(m);
      ReceivedExactly(Frame(m), p);
    }
  }
}
