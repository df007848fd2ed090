/** The call pipeline as functions on bytes: what the client asks, what the server
    answers, what the client makes of it; and the end-to-end laws. */
module Rpc {
  import opened Bytes
  import opened Words
  import opened Codec
  import opened CodecLaws
  import opened ByteArrays
  import opened Protocols
  import opened Sessions
  import opened Layouts
  import Varint
  import Wire

  const RPC_SUCCESS := 0
  const RPC_FAIL := 1
  const RPC_NO_MATCH := 2
  const RPC_NO_METHOD := 3
  const RPC_CLOSED := 4

  function ToByte(c: char): byte {
    c as int % 128
  }

  /** The bytes of an ASCII text. */
  function Ascii(s: string): (bs: bytes)
    ensures |bs| == |s|
  {
    seq(|s|, i requires 0 <= i < |s| => ToByte(s[i]))
  }

  function ParamsNotMatch(): (m: bytes)
    ensures |m| == 16
  {
    Ascii("params not match")
  }

  function ReturnNotMatch(): (m: bytes)
    ensures |m| == 22
  {
    Ascii("return value not match")
  }

  function NotFound(): bytes {
    Ascii("Method not find")
  }

  function SocketClosed(): bytes {
    Ascii("socket closed")
  }

  function NotSent(): bytes {
    Ascii("have not sent data")
  }

  function NoResponse(): bytes {
    Ascii("The parsed data is empty")
  }

  /** A registered function: the tuple of its parameters, its result type, what it
      computes, and what an `RPCResult` holds whose value is never set. */
  datatype Handler = Handler(params: Ty, ret: Ty, f: Value -> Value, unset: Value) {
    /** A C++ function returns a value of its return type. */
    ghost predicate Valid() {
      WellTyped(ret, unset) && forall a :: WellTyped(ret, f(a))
    }
  }

  // ---- `RPCResult` ----

  const CODE := Base(Integer(W16, false))

  predicate IsResult(ret: Ty, code: nat, msg: bytes, v: Value) {
    IsUnsigned(code, W16) && |msg| < Modulus(W64) && WellTyped(ret, v)
  }

  /** `operator<<`: code, message and value, the value whatever the code. */
  function EncodeResult(ret: Ty, code: nat, msg: bytes, v: Value): bytes
    requires IsResult(ret, code, msg, v)
  {
    EncodeScalar(CODE.scalar, code, false) + Wire.EncodeString(msg) + Encode(ret, v, false)
  }

  /** `operator>>`: the value is read only if the code says success. */
  function DecodeResult(ret: Ty, s: bytes, tight: bool): Parsed<(nat, bytes, Option<Value>)> {
    var (code, rest) :- DecodeScalar(CODE.scalar, s, false);
    var (msg, rest') :- Wire.DecodeString(rest, tight);
    if code == 0 then
      var (v, rest'') :- Decode(ret, rest', false, tight);
      Done((0, msg, Some(v)), rest'')
    else
      Done((if code < 0 then 0 else code, msg, None), rest')
  }

  // ---- the server ----

  /** How a call ends on the server: an answer, an exception that nobody there catches,
      or the dereference of a null chunk pointer. */
  datatype Served<+T> = Reply(value: T) | Thrown | Crashed

  /** `proxy` with the argument bytes in its serializer: what is written into the result
      buffer. */
  function Applied(h: Handler, arg: bytes): Served<bytes>
    requires h.Valid()
  {
    match Decode(h.params, arg, false, Full(|arg|, BLOCK))
    case Done(args, _) => Reply(EncodeResult(h.ret, RPC_SUCCESS, [], h.f(args)))
    case Throws(_) => Reply(EncodeResult(h.ret, RPC_NO_MATCH, ParamsNotMatch(), h.unset))
    case Faults(_) => Crashed
  }

  /** `proxy`, which builds that serializer outside its `try`. */
  function Proxied(h: Handler, arg: bytes): Served<bytes>
    requires h.Valid()
  {
    match Wire.RowData(arg)
    case Some(held) => Applied(h, held)
    case None => Thrown
  }

  ghost predicate ValidTable(handlers: map<bytes, Handler>) {
    forall name :: name in handlers ==> handlers[name].Valid()
  }

  /** `call`. */
  function Called(handlers: map<bytes, Handler>, name: bytes, arg: bytes): Served<bytes>
    requires ValidTable(handlers)
  {
    if name in handlers then Proxied(handlers[name], arg) else Reply([])
  }

  /** `handleMethodCall` with the content of the request in its serializer. */
  function Dispatched(handlers: map<bytes, Handler>, held: bytes): Served<bytes>
    requires ValidTable(handlers)
  {
    match Wire.DecodeString(held, Full(|held|, BLOCK))
    case Done(name, rest) => Called(handlers, name, rest)
    case Throws(_) => Thrown
    case Faults(_) => Crashed
  }

  /** `handleMethodCall`, from the content of the request to the content of the response. */
  function Handled(handlers: map<bytes, Handler>, content: bytes): Served<bytes>
    requires ValidTable(handlers)
  {
    match Wire.RowData(content)
    case Some(held) => Dispatched(handlers, held)
    case None => Thrown
  }

  /** `publish_client_msg`, from a delivered batch to the response, if there is one. */
  function Published(handlers: map<bytes, Handler>, batch: bytes, little: bool, tight: bool):
      (r: Served<Option<Message>>)
    requires ValidTable(handlers)
    ensures r.Reply? && r.value.Some? ==> r.value.value.Valid() && r.value.value.magic == MAGIC
  {
    match ParseFrame(batch, little, tight)
    case Throws(_) => Reply(None)
    case Faults(_) => Crashed
    case Done(m, _) =>
      if m.magic != MAGIC || m.kind != RPC_METHOD_REQUEST then Reply(None)
      else
        match Handled(handlers, m.content)
        case Reply(c) => Reply(Some(Message(MAGIC, DEFAULT_VERSION, RPC_METHOD_RESPONSE, m.sequence, c)))
        case Thrown => Thrown
        case Crashed => Crashed
  }

  // ---- the client ----

  /** What a call gives the caller: a result, whose value is known only on success; an
      exception that leaves `call`; or the dereference of a null chunk pointer, on either
      side. */
  datatype Outcome = Result(code: nat, msg: bytes, val: Option<Value>) | Escaped | Died

  function Failed(code: nat, msg: bytes): Outcome {
    Result(code, msg, None)
  }

  function RequestContent(name: bytes, ty: Ty, args: Value): bytes
    requires WellTyped(Text, Str(name)) && WellTyped(ty, args)
  {
    Encode(Text, Str(name), false) + Encode(ty, args, false)
  }

  function RequestMessage(content: bytes): Message {
    Message(MAGIC, DEFAULT_VERSION, RPC_METHOD_REQUEST, 0, content)
  }

  /** The frame of a request. */
  function RequestFrame(content: bytes): bytes {
    Frame(RequestMessage(content))
  }

  /** What the client makes of a result in its serializer. */
  function ReadBack(ret: Ty, held: bytes): Outcome {
    match DecodeResult(ret, held, Full(|held|, BLOCK))
    case Done((code, msg, v), _) => Result(code, msg, v)
    case Throws(_) => Failed(RPC_NO_MATCH, ReturnNotMatch())
    case Faults(_) => Died
  }

  /** What it makes of the content of a response; the serializer is built outside the `try`. */
  function Understood(ret: Ty, content: bytes): Outcome {
    if content == [] then Failed(RPC_NO_METHOD, NotFound())
    else
      match Wire.RowData(content)
      case Some(held) => ReadBack(ret, held)
      case None => Escaped
  }

  // ---- end to end ----

  /** What the server makes of a request delivered as one batch to a fresh buffer. */
  function Answer(handlers: map<bytes, Handler>, content: bytes): (r: Served<Option<Message>>)
    requires ValidTable(handlers)
    ensures r.Reply? && r.value.Some? ==> r.value.value.Valid()
  {
    Published(handlers, RequestFrame(content), false, Full(|RequestFrame(content)|, BLOCK))
  }

  /** What the client makes of the frame of an answer, all of it delivered. */
  function Concluding(ret: Ty, m: Message): Outcome
    requires m.Valid()
  {
    match Received(Frame(m))
    case Some(p) => Understood(ret, p.content)
    case None => Failed(RPC_FAIL, NoResponse())
  }

  /** The request framed, delivered as one batch to a fresh buffer and answered, and the
      answer framed, delivered and read by the client. `Died` if either side does, `None`
      if the server answers nothing. */
  function EndToEnd(handlers: map<bytes, Handler>, content: bytes, ret: Ty): Option<Outcome>
    requires ValidTable(handlers)
  {
    match Answer(handlers, content)
    case Reply(Some(m)) => Some(Concluding(ret, m))
    case Crashed => Some(Died)
    case _ => None
  }

  /** A batch that is one request frame reaches `handleMethodCall` with as much of its
      content as the length field tells. */
  lemma RequestArrives(handlers: map<bytes, Handler>, content: bytes)
    requires ValidTable(handlers)
    ensures
      Answer(handlers, content) ==
      match Handled(handlers, Cut(content))
      case Reply(c) => Reply(Some(Message(MAGIC, DEFAULT_VERSION, RPC_METHOD_RESPONSE, 0, c)))
      case Thrown => Thrown
      case Crashed => Crashed
  {
    hide Handled, ParseFrame, Header, ValidTable;
    var m := RequestMessage(content);
    var frame := Frame(m);
    assert frame + [] == frame;
    FrameArrives(m, [], Full(|frame|, BLOCK));
  }

  /** And the client reads as much of the response as its length field tells. */
  lemma AnswerArrives(ret: Ty, m: Message)
    requires m.Valid() && m.magic == MAGIC
    ensures Concluding(ret, m) == Understood(ret, Cut(m.content))
  {
    hide Understood, Frame, Received, NoResponse;
    ArrivedFrame(m);
    ReceivedExactly(Frame(m), Arrived(m));
  }

  /** Any batch of bytes, at the level of its bytes. Nothing answers it that is too short
      for its own length field, is not of magic 9, or is not of type 5; the rest gets a
      frame of type 6 with the sequence number of the request. */
  lemma AnyBatch(handlers: map<bytes, Handler>, batch: bytes, tight: bool)
    requires ValidTable(handlers)
    ensures Published(handlers, batch, false, tight) ==
      if |batch| < 11 || FromBigEndian(batch[7..11]) > |batch| - 11 then Reply(None)
      else
        var n := FromBigEndian(batch[7..11]);
        if n == 0 && |batch| == 11 && tight then Crashed
        else if batch[0] != 9 || batch[2] != 5 then Reply(None)
        else
          match Handled(handlers, batch[11..11 + n])
          case Reply(c) => Reply(Some(Message(9, 1, 6, FromBigEndian(batch[3..7]), c)))
          case Thrown => Thrown
          case Crashed => Crashed
    ensures !Full(11, BLOCK)  // so a batch in a buffer of its own never crashes the decoding
  {
    hide ParseFrame, Handled, FromBigEndian, ValidTable;
    FrameOfAnyBytes(batch, tight);
  }

  lemma FrameBytes(m: Message, rest: bytes)
    requires m.Valid()
    ensures
      var s := Frame(m) + rest;
      && |s| == 11 + |m.content| + |rest| && s[0] == m.magic && s[2] == m.kind
      && FromBigEndian(s[3..7]) == m.sequence && FromBigEndian(s[7..11]) == |Cut(m.content)|
      && s[11..] == m.content + rest
  {
    var s, h, n := Frame(m) + rest, Header(m), |m.content| % 0x1_0000_0000;
    HeaderBytes(m);
    ModulusIsPow256(W32);
    BigEndianRoundTrip(m.sequence, 4);
    BigEndianRoundTrip(n, 4);
    hide Header, FromBigEndian, BigEndian;
    assert s == h + (m.content + rest);
    assert s[..11] == h;
    assert s[3..7] == s[..11][3..7] && s[7..11] == s[..11][7..11] && s[..3] == s[..11][..3];
    assert s[0] == s[..3][0] && s[2] == s[..3][2];
  }

  /** A request cut off anywhere, as when the socket has no more for now: it is not
      answered, unless what is left is as long as its length field tells, which takes a
      content of 2^32 bytes. */
  lemma PartialBatch(handlers: map<bytes, Handler>, m: Message, n: nat, tight: bool)
    requires ValidTable(handlers) && m.Valid() && n < |Frame(m)|
    ensures Published(handlers, Frame(m)[..n], false, tight) ==
      if n < 11 + |Cut(m.content)| then Reply(None)
      else if Cut(m.content) == [] && n == 11 && tight then Crashed
      else Published(handlers, Frame(Arrived(m)), false, false)
    ensures |m.content| < 0x1_0000_0000 ==> Published(handlers, Frame(m)[..n], false, tight) == Reply(None)
  {
    var part, whole := Frame(m)[..n], Frame(Arrived(m));
    SameCut(m);
    hide *;
    if n < 11 {
      TooShort(handlers, part, tight);
    } else {
      PartBytes(m, n);
      var most: nat := n - 11;
      if |Cut(m.content)| > most {
        TooShort(handlers, part, tight);
      } else {
        ArrivedBytes(m);
        SameRequest(handlers, part, whole, Cut(m.content), tight);
      }
    }
  }

  lemma TooShort(handlers: map<bytes, Handler>, batch: bytes, tight: bool)
    requires ValidTable(handlers) && (|batch| < 11 || FromBigEndian(batch[7..11]) > |batch| - 11)
    ensures Published(handlers, batch, false, tight) == Reply(None)
  {
    hide Published, FromBigEndian, ValidTable, Handled;
    AnyBatch(handlers, batch, tight);
  }

  /** Bytes behind the content make no difference but to the crash. */
  lemma SameRequest(handlers: map<bytes, Handler>, a: bytes, b: bytes, content: bytes, tight: bool)
    requires ValidTable(handlers) && |a| >= 11 + |content| && |b| >= 11 + |content|
    requires a[0] == b[0] && a[2] == b[2] && FromBigEndian(a[3..7]) == FromBigEndian(b[3..7])
    requires FromBigEndian(a[7..11]) == FromBigEndian(b[7..11]) == |content|
    requires a[11..11 + |content|] == content == b[11..11 + |content|]
    ensures Published(handlers, a, false, tight) ==
      if content == [] && |a| == 11 && tight then Crashed else Published(handlers, b, false, false)
  {
    hide Published, FromBigEndian, ValidTable, Handled;
    AnyBatch(handlers, a, tight);
    AnyBatch(handlers, b, false);
  }

  /** What `AnyBatch` looks at, in a part of a frame. */
  lemma PartBytes(m: Message, n: nat)
    requires m.Valid() && 11 <= n <= |Frame(m)|
    ensures
      var s, k := Frame(m)[..n], |Cut(m.content)|;
      && s[0] == m.magic && s[2] == m.kind
      && FromBigEndian(s[3..7]) == m.sequence && FromBigEndian(s[7..11]) == k
      && (n >= 11 + k ==> s[11..11 + k] == Cut(m.content))
  {
    FrameBytes(m, []);
    SameCut(m);
    hide FromBigEndian, Cut, Frame;
    var f, k := Frame(m), |Cut(m.content)|;
    assert f + [] == f && m.content + [] == m.content;
    assert f[..n][7..11] == f[7..11] && f[..n][3..7] == f[3..7];
    if n >= 11 + k {
      assert f[..n][11..11 + k] == f[11..][..k];
    }
  }

  lemma ArrivedBytes(m: Message)
    requires m.Valid()
    ensures
      var s, k := Frame(Arrived(m)), |Cut(m.content)|;
      && |s| == 11 + k && s[0] == m.magic && s[2] == m.kind
      && FromBigEndian(s[3..7]) == m.sequence && FromBigEndian(s[7..11]) == k
      && s[11..11 + k] == Cut(m.content)
  {
    SameCut(m);
    hide FromBigEndian, Cut, Frame;
    var s := Frame(Arrived(m));
    PartBytes(Arrived(m), |s|);
    assert s[..|s|] == s;
  }

  lemma SameCut(m: Message)
    ensures Cut(Cut(m.content)) == Cut(m.content) && Cut(m.content) == m.content[..|Cut(m.content)|]
    ensures m.Valid() ==> Arrived(m).Valid() && |Frame(Arrived(m))| == 11 + |Cut(m.content)|
    ensures Arrived(m).content == Cut(m.content) && Arrived(m).magic == m.magic && Arrived(m).kind == m.kind
    ensures Arrived(m).sequence == m.sequence
    ensures |m.content| < 0x1_0000_0000 <==> |Cut(m.content)| == |m.content|
  {
  }

  /** A whole frame that is no request of this protocol is not answered, whatever its
      content and whatever follows it. */
  lemma ForeignBatch(handlers: map<bytes, Handler>, m: Message, rest: bytes, tight: bool)
    requires ValidTable(handlers) && m.Valid() && (m.magic != 9 || m.kind != 5)
    ensures Published(handlers, Frame(m) + rest, false, tight) ==
      if m.content == [] && rest == [] && tight then Crashed else Reply(None)
  {
    hide ParseFrame, Handled, ValidTable, Frame;
    FrameArrives(m, rest, tight);
  }

  /** How the client concludes from what the server's handling comes to. */
  function Finish(ret: Ty, served: Served<bytes>): Option<Outcome> {
    match served
    case Reply(c) => Some(Understood(ret, Cut(c)))
    case Thrown => None
    case Crashed => Some(Died)
  }

  /** So the outcome is that of `handleMethodCall` and of the client, each on what arrives
      of a content. */
  lemma ThroughBothFrames(handlers: map<bytes, Handler>, content: bytes, ret: Ty)
    requires ValidTable(handlers)
    ensures EndToEnd(handlers, content, ret) == Finish(ret, Handled(handlers, Cut(content)))
  {
    hide Answer, Handled, Understood, Concluding, ValidTable, Cut;
    RequestArrives(handlers, content);
    match Handled(handlers, Cut(content))
    case Reply(c) => AnswerArrives(ret, Message(MAGIC, DEFAULT_VERSION, RPC_METHOD_RESPONSE, 0, c));
    case _ =>
  }

  // ---- the request ----

  /** A content that arrived is handled if its size is an `int`, and throws otherwise. */
  lemma ArrivedHandled(handlers: map<bytes, Handler>, content: bytes)
    requires ValidTable(handlers) && |content| < Modulus(W32)
    ensures Handled(handlers, content) == if IsSigned(|content|, W32) then Dispatched(handlers, content) else Thrown
  {
    hide Dispatched, ValidTable, Wire.RowData;
    Wire.RowDataExactly(content);
  }

  /** A request is read up to its name if all of the name arrives, and throws otherwise. */
  lemma NameRead(handlers: map<bytes, Handler>, name: bytes, arg: bytes)
    requires ValidTable(handlers) && |name| < Modulus(W64)
    ensures Dispatched(handlers, Wire.EncodeString(name) + arg) == Called(handlers, name, arg)
  {
    hide Called, ValidTable, Wire.DecodeString;
    var content := Wire.EncodeString(name) + arg;
    Wire.StringRoundTrip(name, arg, Full(|content|, BLOCK));
    if name == [] && arg == [] {
      assert |content| == 1;
    }
  }

  lemma NameCut(handlers: map<bytes, Handler>, name: bytes, n: nat)
    requires ValidTable(handlers) && |name| < Modulus(W64) && n < |Wire.EncodeString(name)|
    ensures Dispatched(handlers, Wire.EncodeString(name)[..n]) == Thrown
  {
    hide Called, ValidTable, Wire.DecodeString, Wire.EncodeString;
    CutText(name, n, Full(n, BLOCK));
  }

  /** What comes of the first `j` bytes of a name and argument bytes. */
  lemma PartHandled(handlers: map<bytes, Handler>, name: bytes, arg: bytes, j: nat)
    requires ValidTable(handlers) && |name| < Modulus(W64)
    requires j <= |Wire.EncodeString(name) + arg| && j < Modulus(W32)
    ensures
      var e := Wire.EncodeString(name);
      Handled(handlers, (e + arg)[..j]) ==
      if j < |e| || !IsSigned(j, W32) then Thrown else Called(handlers, name, arg[..j - |e|])
  {
    hide *;
    var e := Wire.EncodeString(name);
    Prefix(e, arg, j);
    ArrivedHandled(handlers, (e + arg)[..j]);
    if j < |e| {
      NameCut(handlers, name, j);
    } else {
      NameRead(handlers, name, arg[..j - |e|]);
    }
  }

  lemma Prefix(e: bytes, a: bytes, j: nat)
    requires j <= |e + a|
    ensures (e + a)[..j] == if j < |e| then e[..j] else e + a[..j - |e|]
  {
  }

  lemma CutIsPrefix(content: bytes)
    ensures Cut(content) == content[..|Cut(content)|]
    ensures |content| < Modulus(W32) <==> |Cut(content)| == |content|
  {
  }

  /** What arrives of a name and argument bytes. */
  lemma RequestRead(handlers: map<bytes, Handler>, name: bytes, arg: bytes, ret: Ty)
    requires ValidTable(handlers) && |name| < Modulus(W64)
    ensures
      var e := Wire.EncodeString(name);
      var k := |Cut(e + arg)|;
      && k <= |e + arg|
      && EndToEnd(handlers, e + arg, ret) ==
           Finish(ret, if k < |e| || !IsSigned(k, W32) then Thrown else Called(handlers, name, arg[..k - |e|]))
  {
    hide *;
    var content := Wire.EncodeString(name) + arg;
    ThroughBothFrames(handlers, content, ret);
    CutIsPrefix(content);
    PartHandled(handlers, name, arg, |Cut(content)|);
  }

  /** The arguments run into the null chunk pointer: their bytes fill their last chunk and
      end with an empty string. */
  predicate ArgumentsCrash(h: Handler, args: Value)
    requires WellTyped(h.params, args)
  {
    Full(|Encode(h.params, args, false)|, BLOCK) && EmptyTail(h.params, args)
  }

  /** What the server does with a part of their bytes in its serializer. */
  function PartServed(h: Handler, args: Value, held: Option<bytes>): Served<bytes>
    requires h.Valid() && WellTyped(h.params, args)
  {
    match held
    case None => Thrown
    case Some(part) =>
      if Full(|part|, BLOCK) && Stops(h.params, args, |part|, false) then Crashed
      else
        RefusedResult(h);
        Reply(EncodeResult(h.ret, RPC_NO_MATCH, ParamsNotMatch(), h.unset))
  }

  /** What the server does with arguments of the right types: the handler gets what is
      left of them after the detour of the enumerators, which is all if they fit. */
  lemma ArgumentsServed(h: Handler, args: Value)
    requires h.Valid() && WellTyped(h.params, args)
    ensures
      var arg := Encode(h.params, args, false);
      Proxied(h, arg) ==
        if !IsSigned(|arg|, W32) then PartServed(h, args, Wire.RowData(arg))
        else if ArgumentsCrash(h, args) then Crashed
        else Reply(EncodeResult(h.ret, RPC_SUCCESS, [], h.f(Narrowed(h.params, args))))
    ensures Narrowed(h.params, args) == args <==> EnumsFit(h.params, args)
  {
    hide Applied, EncodeResult, Encode, EmptyTail, Narrowed, WellTyped, Full, PartServed, Wire.RowData, ArgumentsCrash;
    NarrowedExactly(h.params, args);
    AppliedToAll(h, args);
    HeldPart(h, args, |Encode(h.params, args, false)|);
  }

  /** And with a proper prefix of their bytes. */
  lemma ArgumentsCut(h: Handler, args: Value, n: nat)
    requires h.Valid() && WellTyped(h.params, args) && n < |Encode(h.params, args, false)|
    ensures
      var arg := Encode(h.params, args, false)[..n];
      Proxied(h, arg) == PartServed(h, args, Wire.RowData(arg))
  {
    hide Applied, Encode, PartServed, Wire.RowData, WellTyped;
    HeldPart(h, args, n);
  }

  lemma AppliedToAll(h: Handler, args: Value)
    requires h.Valid() && WellTyped(h.params, args)
    ensures
      Applied(h, Encode(h.params, args, false)) ==
        if ArgumentsCrash(h, args) then Crashed
        else Reply(EncodeResult(h.ret, RPC_SUCCESS, [], h.f(Narrowed(h.params, args))))
  {
    hide Decode, EncodeResult, EmptyTail, Narrowed, ParamsNotMatch, WellTyped, Full;
    var arg := Encode(h.params, args, false);
    assert arg + [] == arg;
    Consumes(h.params, args, [], false, Full(|arg|, BLOCK));
  }

  lemma AppliedToPart(h: Handler, args: Value, n: nat)
    requires h.Valid() && WellTyped(h.params, args) && n < |Encode(h.params, args, false)|
    ensures
      var part := Encode(h.params, args, false)[..n];
      Applied(h, part) == PartServed(h, args, Some(part))
  {
    hide Decode, Encode, EncodeResult, Stops, ParamsNotMatch, WellTyped, Full;
    TruncatedFails(h.params, args, n, false, Full(n, BLOCK));
  }

  /** A serializer holds what it is built from, or a prefix of it. */
  lemma HeldPart(h: Handler, args: Value, n: nat)
    requires h.Valid() && WellTyped(h.params, args) && n <= |Encode(h.params, args, false)|
    ensures
      var arg := Encode(h.params, args, false);
      Proxied(h, arg[..n]) ==
        if n == |arg| && IsSigned(n, W32) then Applied(h, arg) else PartServed(h, args, Wire.RowData(arg[..n]))
    ensures Encode(h.params, args, false)[..|Encode(h.params, args, false)|] == Encode(h.params, args, false)
  {
    hide Applied, Encode, WellTyped, Wire.RowData, Full, Stops, EncodeResult, ParamsNotMatch;
    var arg := Encode(h.params, args, false);
    Wire.RowDataExactly(arg[..n]);
    match Wire.RowData(arg[..n])
    case None =>
    case Some(held) =>
      HeldPrefix(arg, n, held);
      if |held| < |arg| {
        AppliedToPart(h, args, |held|);
      }
  }

  lemma HeldPrefix(arg: bytes, n: nat, held: bytes)
    requires n <= |arg| && held <= arg[..n]
    ensures |held| <= n && held == arg[..|held|]
    ensures |held| == |arg| ==> held == arg
  {
  }

  // ---- the response ----

  /** The bytes of a result: two of the code, the message, and the value whatever the code. */
  lemma ResultBytes(ret: Ty, code: nat, msg: bytes, v: Value)
    requires IsResult(ret, code, msg, v)
    ensures EncodeResult(ret, code, msg, v) ==
      [code / 0x100, code % 0x100] + Varint.Encode(|msg|) + msg + Encode(ret, v, false)
  {
    ScalarBytes(CODE.scalar, code, false);
    ResultParts(ret, code, msg, v);
    hide *;
    Regroup([code / 0x100, code % 0x100], Varint.Encode(|msg|), msg);
  }

  lemma ResultParts(ret: Ty, code: nat, msg: bytes, v: Value)
    requires IsResult(ret, code, msg, v)
    ensures Wire.EncodeString(msg) == Varint.Encode(|msg|) + msg
    ensures EncodeResult(ret, code, msg, v) ==
      EncodeScalar(CODE.scalar, code, false) + Wire.EncodeString(msg) + Encode(ret, v, false)
  {
  }

  /** A refusal starts with code 2 and "params not match". */
  lemma RefusalBytes(ret: Ty, v: Value)
    requires IsResult(ret, RPC_NO_MATCH, ParamsNotMatch(), v)
    ensures EncodeResult(ret, RPC_NO_MATCH, ParamsNotMatch(), v) ==
      [0, 2] + [16] + [112, 97, 114, 97, 109, 115, 32, 110, 111, 116, 32, 109, 97, 116, 99, 104] + Encode(ret, v, false)
  {
    RefusalMessage();
    ResultBytes(ret, RPC_NO_MATCH, ParamsNotMatch(), v);
    hide EncodeResult, Encode, Varint.Encode, ParamsNotMatch, WellTyped, IsResult;
  }

  lemma RefusalMessage()
    ensures ParamsNotMatch() == [112, 97, 114, 97, 109, 115, 32, 110, 111, 116, 32, 109, 97, 116, 99, 104]
    ensures Varint.Encode(16) == [16]
  {
  }

  /** What the client says of a response. */
  lemma ResponseMessages()
    ensures ReturnNotMatch() == [114, 101, 116, 117, 114, 110, 32, 118, 97, 108, 117, 101, 32] +
      [110, 111, 116, 32, 109, 97, 116, 99, 104]
    ensures NotFound() == [77, 101, 116, 104, 111, 100, 32, 110, 111, 116, 32, 102, 105, 110, 100]
  {
  }

  /** And of a connection. */
  lemma ConnectionMessages()
    ensures SocketClosed() == [115, 111, 99, 107, 101, 116, 32, 99, 108, 111, 115, 101, 100]
    ensures NotSent() == [104, 97, 118, 101, 32, 110, 111, 116, 32, 115, 101, 110, 116, 32, 100, 97, 116, 97]
  {
  }

  lemma NoResponseMessage()
    ensures NoResponse() == [84, 104, 101, 32, 112, 97, 114, 115, 101, 100, 32, 100, 97, 116, 97, 32, 105, 115, 32] +
      [101, 109, 112, 116, 121]
  {
  }

  /** A result is written as the tuple of its members. */
  function ResultTy(ret: Ty): Ty {
    Product(CODE, Product(Text, Product(ret, Unit)))
  }

  function ResultValue(v: Value): Value {
    Pair(Num(RPC_SUCCESS), Pair(Str([]), Pair(v, Empty)))
  }

  lemma CodeTakesTwo(code: nat)
    requires IsUnsigned(code, W16)
    ensures |EncodeScalar(CODE.scalar, code, false)| == 2 && InRange(CODE.scalar, code)
  {
  }

  lemma ResultIsTuple(ret: Ty, v: Value)
    requires WellTyped(ret, v)
    ensures WellTyped(ResultTy(ret), ResultValue(v))
    ensures Encode(ResultTy(ret), ResultValue(v), false) == EncodeResult(ret, RPC_SUCCESS, [], v)
  {
    CodeTakesTwo(0);
    var tail := Product(ret, Unit);
    assert WellTyped(tail, Pair(v, Empty)) && WellTyped(Product(Text, tail), Pair(Str([]), Pair(v, Empty)));
    assert Encode(tail, Pair(v, Empty), false) == Encode(ret, v, false) + [];
    assert Encode(Product(Text, tail), Pair(Str([]), Pair(v, Empty)), false)
      == Wire.EncodeString([]) + Encode(ret, v, false);
  }

  /** A result whose code does not say failure is read as that tuple. */
  lemma ResultReadAsTuple(ret: Ty, s: bytes, tight: bool)
    requires DecodeScalar(CODE.scalar, s, false).Done? ==> DecodeScalar(CODE.scalar, s, false).value == 0
    ensures
      var d, t := DecodeResult(ret, s, tight), Decode(ResultTy(ret), s, false, tight);
      && (d.Throws? <==> t.Throws?) && (d.Faults? <==> t.Faults?)
  {
    hide DecodeScalar, Wire.DecodeString, Decode;
    PairRead(CODE, Product(Text, Product(ret, Unit)), s, tight);
    ScalarRead(s, tight);
    var code := DecodeScalar(CODE.scalar, s, false);
    if code.Done? {
      PairRead(Text, Product(ret, Unit), code.rest, tight);
      var msg := Wire.DecodeString(code.rest, tight);
      if msg.Done? {
        PairRead(ret, Unit, msg.rest, tight);
      }
    }
  }

  lemma PairRead(t: Ty, u: Ty, s: bytes, tight: bool)
    ensures
      var d, a := Decode(Product(t, u), s, false, tight), Decode(t, s, false, tight);
      if a.Done? then
        var b := Decode(u, a.rest, false, tight);
        (d.Done? <==> b.Done?) && (d.Throws? <==> b.Throws?)
      else (d.Throws? <==> a.Throws?) && !d.Done?
  {
  }

  lemma ScalarRead(s: bytes, tight: bool)
    ensures
      var d, a := DecodeScalar(CODE.scalar, s, false), Decode(CODE, s, false, tight);
      (a.Throws? <==> d.Throws?) && (a.Done? <==> d.Done?) && (d.Done? ==> a.rest == d.rest)
    ensures forall r: bytes ::
      var d, a := Wire.DecodeString(r, tight), Decode(Text, r, false, tight);
      (a.Throws? <==> d.Throws?) && (a.Done? <==> d.Done?) && (d.Done? ==> a.rest == d.rest)
    ensures forall r: bytes :: Decode(Unit, r, false, tight).Done?
  {
    hide DecodeScalar, Wire.DecodeString;
  }

  /** The response to a served call runs into the null chunk pointer: what arrives of it
      fills its last chunk and ends with an empty string, or is cut right behind one. */
  predicate ReplyCrashes(ret: Ty, v: Value)
    requires WellTyped(ret, v)
  {
    var reply := EncodeResult(ret, RPC_SUCCESS, [], v);
    var n := |Cut(reply)|;
    ResultIsTuple(ret, v);
    IsSigned(n, W32) && Full(n, BLOCK) &&
    (if n == |reply| then EmptyTail(ret, v) else Stops(ResultTy(ret), ResultValue(v), n, false))
  }

  /** The code and the message of a result read back, before the bytes `c` of its value. */
  lemma ResultHead(ret: Ty, code: nat, msg: bytes, c: bytes, tight: bool)
    requires IsUnsigned(code, W16) && |msg| < Modulus(W64)
    ensures
      var d := DecodeResult(ret, EncodeScalar(CODE.scalar, code, false) + Wire.EncodeString(msg) + c, tight);
      if tight && msg == [] && c == [] then d.Faults?
      else if code != 0 then d == Done((code, msg, None), c)
      else
        match Decode(ret, c, false, tight)
        case Done(v, rest) => d == Done((0, msg, Some(v)), rest)
        case Throws(_) => d.Throws?
        case Faults(_) => d.Faults?
  {
    var a, b := EncodeScalar(CODE.scalar, code, false), Wire.EncodeString(msg);
    CodeTakesTwo(code);
    ScalarRoundTrip(CODE.scalar, code, b + c, false);
    Wire.StringRoundTrip(msg, c, tight);
    hide Decode, EncodeScalar, DecodeScalar, Wire.EncodeString, Wire.DecodeString;
    assert a + b + c == a + (b + c);
  }

  /** A response cut inside its code or message cannot be read. */
  lemma HeadCut(ret: Ty, code: nat, msg: bytes, s: bytes, tight: bool)
    requires IsUnsigned(code, W16) && |msg| < Modulus(W64) && |s| < 2 + |Wire.EncodeString(msg)|
    requires s <= EncodeScalar(CODE.scalar, code, false) + Wire.EncodeString(msg)
    ensures DecodeResult(ret, s, tight).Throws?
  {
    CodeTakesTwo(code);
    hide EncodeScalar, DecodeScalar, Wire.EncodeString, Wire.DecodeString;
    var a, b := EncodeScalar(CODE.scalar, code, false), Wire.EncodeString(msg);
    if |s| < 2 {
      assert s == a[..|s|];
      CutScalar(CODE.scalar, code, |s|, false);
    } else {
      assert s == a + b[..|s| - 2];
      ScalarRoundTrip(CODE.scalar, code, b[..|s| - 2], false);
      CutText(msg, |s| - 2, tight);
    }
  }

  /** A whole result read back: what is left of the value, or the crash of an empty string
      at the end of a full last chunk. */
  lemma WholeReply(ret: Ty, v: Value, tight: bool)
    requires WellTyped(ret, v) && !(tight && Blank(ret))
    ensures
      var d := DecodeResult(ret, EncodeResult(ret, RPC_SUCCESS, [], v), tight);
      if tight && EmptyTail(ret, v) then d.Faults? else d == Done((0, [], Some(Narrowed(ret, v))), [])
  {
    hide WellTyped, EmptyTail, Narrowed, Decode, Encode, DecodeResult, Wire.EncodeString, EncodeScalar, Blank;
    var c := Encode(ret, v, false);
    ResultHead(ret, 0, [], c, tight);
    BlankTakesNothing(ret, v, false);
    assert c + [] == c;
    Consumes(ret, v, [], false, tight);
  }

  lemma ReplyLength(ret: Ty, v: Value)
    requires WellTyped(ret, v)
    ensures |EncodeResult(ret, RPC_SUCCESS, [], v)| == 3 + |Encode(ret, v, false)|
    ensures Blank(ret) ==> |EncodeResult(ret, RPC_SUCCESS, [], v)| == 3
  {
    hide WellTyped, Encode, Blank;
    CodeTakesTwo(0);
    BlankTakesNothing(ret, v, false);
    assert Wire.EncodeString([]) == [0];
  }

  /** A proper prefix of it. */
  lemma CutReply(ret: Ty, v: Value, n: nat, tight: bool)
    requires WellTyped(ret, v) && n < |EncodeResult(ret, RPC_SUCCESS, [], v)|
    ensures WellTyped(ResultTy(ret), ResultValue(v))
    ensures Fails(DecodeResult(ret, EncodeResult(ret, RPC_SUCCESS, [], v)[..n], tight),
                  tight && Stops(ResultTy(ret), ResultValue(v), n, false))
  {
    var reply := EncodeResult(ret, RPC_SUCCESS, [], v);
    ResultIsTuple(ret, v);
    CodeCut(ret, v, n);
    hide *;
    TruncatedFails(ResultTy(ret), ResultValue(v), n, false, tight);
    ResultReadAsTuple(ret, reply[..n], tight);
    FailsSame(DecodeResult(ret, reply[..n], tight), Decode(ResultTy(ret), reply[..n], false, tight),
              tight && Stops(ResultTy(ret), ResultValue(v), n, false));
  }

  lemma FailsSame<T, U>(d: Parsed<T>, t: Parsed<U>, crash: bool)
    requires Fails(t, crash) && (d.Throws? <==> t.Throws?) && (d.Faults? <==> t.Faults?)
    ensures Fails(d, crash)
  {
  }

  lemma SuccessHead(ret: Ty, v: Value)
    requires WellTyped(ret, v)
    ensures |EncodeScalar(CODE.scalar, RPC_SUCCESS, false)| == 2 && |Wire.EncodeString([])| == 1
    ensures EncodeResult(ret, RPC_SUCCESS, [], v) ==
      EncodeScalar(CODE.scalar, RPC_SUCCESS, false) + Wire.EncodeString([]) + Encode(ret, v, false)
  {
    CodeTakesTwo(RPC_SUCCESS);
    assert Wire.EncodeString([]) == [0];
  }

  lemma Regroup(a: bytes, b: bytes, c: bytes)
    ensures a + b + c == a + (b + c)
  {
  }

  lemma CutJoins(s: bytes, n: nat)
    requires n <= |s|
    ensures s[..n] + s[n..] == s
  {
  }

  /** The code of a prefix of a successful result is success, if it can be read. */
  lemma CodeCut(ret: Ty, v: Value, n: nat)
    requires WellTyped(ret, v) && n < |EncodeResult(ret, RPC_SUCCESS, [], v)|
    ensures
      var d := DecodeScalar(CODE.scalar, EncodeResult(ret, RPC_SUCCESS, [], v)[..n], false);
      d.Done? ==> d.value == 0
  {
    var reply := EncodeResult(ret, RPC_SUCCESS, [], v);
    SuccessHead(ret, v);
    CodeTakesTwo(0);
    hide *;
    var a, rest := EncodeScalar(CODE.scalar, 0, false), Wire.EncodeString([]) + Encode(ret, v, false);
    Regroup(a, Wire.EncodeString([]), Encode(ret, v, false));
    ScalarRoundTrip(CODE.scalar, 0, rest, false);
    if DecodeScalar(CODE.scalar, reply[..n], false).Done? {
      CutJoins(reply, n);
      ScalarLocal(CODE.scalar, reply[..n], false, reply[n..]);
    }
  }

  /** A response that arrived is read if its size is an `int`; otherwise the client throws. */
  lemma ArrivedUnderstood(ret: Ty, content: bytes)
    requires |content| < Modulus(W32)
    ensures Understood(ret, content) ==
      if content == [] then Failed(3, NotFound())
      else if IsSigned(|content|, W32) then ReadBack(ret, content) else Escaped
  {
    hide ReadBack, NotFound, Wire.RowData;
    Wire.RowDataExactly(content);
  }

  /** What the client makes of what arrives of the response to a served call. */
  lemma ServedUnderstood(ret: Ty, v: Value)
    requires WellTyped(ret, v)
    ensures
      var reply := EncodeResult(ret, RPC_SUCCESS, [], v);
      var u := Understood(ret, Cut(reply));
      && (u == Result(0, [], Some(Narrowed(ret, v))) <==> IsSigned(|reply|, W32) && !ReplyCrashes(ret, v))
      && (u == Died <==> ReplyCrashes(ret, v))
      && (u == Escaped <==> !IsSigned(|Cut(reply)|, W32))
  {
    var reply := EncodeResult(ret, RPC_SUCCESS, [], v);
    hide *;
    CutIsPrefix(reply);
    ArrivedUnderstood(ret, Cut(reply));
    if |reply| < Modulus(W32) {
      WholeReadBack(ret, v);
    } else {
      PartReadBack(ret, v);
    }
    OutcomesDiffer(ret, v);
  }

  /** The outcome of what arrives of that response. */
  lemma OutcomesDiffer(ret: Ty, v: Value)
    requires WellTyped(ret, v)
    ensures ReplyCrashes(ret, v) ==> IsSigned(|Cut(EncodeResult(ret, RPC_SUCCESS, [], v))|, W32)
    ensures IsSigned(|EncodeResult(ret, RPC_SUCCESS, [], v)|, W32) ==>
      |EncodeResult(ret, RPC_SUCCESS, [], v)| < Modulus(W32)
    ensures Failed(3, NotFound()).code != 0
  {
    hide EncodeResult, Cut, EmptyTail, Stops, WellTyped, Full;
  }

  lemma CrashOfWhole(ret: Ty, v: Value)
    requires WellTyped(ret, v) && Cut(EncodeResult(ret, RPC_SUCCESS, [], v)) == EncodeResult(ret, RPC_SUCCESS, [], v)
    ensures
      var n := |EncodeResult(ret, RPC_SUCCESS, [], v)|;
      && (ReplyCrashes(ret, v) <==> IsSigned(n, W32) && Full(n, BLOCK) && EmptyTail(ret, v))
      && (Full(n, BLOCK) ==> n > 3)
  {
    hide EncodeResult, EmptyTail, Stops, WellTyped, Cut;
  }

  lemma ReadBackOf(ret: Ty, held: bytes, v: Value)
    ensures
      var d := DecodeResult(ret, held, Full(|held|, BLOCK));
      && (d.Faults? ==> ReadBack(ret, held) == Died)
      && (d == Done((0, [], Some(v)), []) ==> ReadBack(ret, held) == Result(0, [], Some(v)))
  {
    hide DecodeResult, ReturnNotMatch;
  }

  lemma WholeReadBack(ret: Ty, v: Value)
    requires WellTyped(ret, v) && Cut(EncodeResult(ret, RPC_SUCCESS, [], v)) == EncodeResult(ret, RPC_SUCCESS, [], v)
    ensures
      var reply := EncodeResult(ret, RPC_SUCCESS, [], v);
      && reply != []
      && (IsSigned(|reply|, W32) ==>
            ReadBack(ret, reply) ==
              if ReplyCrashes(ret, v) then Died else Result(0, [], Some(Narrowed(ret, v))))
  {
    ReplyLength(ret, v);
    CrashOfWhole(ret, v);
    hide *;
    var reply := EncodeResult(ret, RPC_SUCCESS, [], v);
    WholeReply(ret, v, Full(|reply|, BLOCK));
    ReadBackOf(ret, reply, Narrowed(ret, v));
  }

  lemma PartReadBack(ret: Ty, v: Value)
    requires WellTyped(ret, v) && Cut(EncodeResult(ret, RPC_SUCCESS, [], v)) != EncodeResult(ret, RPC_SUCCESS, [], v)
    ensures
      var part := Cut(EncodeResult(ret, RPC_SUCCESS, [], v));
      && ReadBack(ret, part) != Escaped
      && (IsSigned(|part|, W32) ==> (ReadBack(ret, part) == Died <==> ReplyCrashes(ret, v)))
      && (ReadBack(ret, part).Result? ==> ReadBack(ret, part).code != 0)
      && (part == [] ==> !ReplyCrashes(ret, v))
  {
    var reply := EncodeResult(ret, RPC_SUCCESS, [], v);
    CutIsPrefix(reply);
    ResultIsTuple(ret, v);
    hide EncodeResult, DecodeResult, EmptyTail, Stops, Narrowed, WellTyped, Encode, Blank;
    hide ReturnNotMatch, NotFound, Cut;
    var n := |Cut(reply)|;
    CutReply(ret, v, n, Full(n, BLOCK));
  }

  /** The bytes of the code and the message of a refusal. */
  const REFUSAL: nat := 19

  /** Enough of the response to refused arguments arrives, and not too much. */
  predicate RefusalArrives(h: Handler)
    requires IsResult(h.ret, RPC_NO_MATCH, ParamsNotMatch(), h.unset)
  {
    var n := |Cut(EncodeResult(h.ret, RPC_NO_MATCH, ParamsNotMatch(), h.unset))|;
    REFUSAL <= n && IsSigned(n, W32)
  }

  lemma RefusalHead()
    ensures IsUnsigned(RPC_NO_MATCH, W16)
    ensures
      |EncodeScalar(CODE.scalar, RPC_NO_MATCH, false)| == 2 && |Wire.EncodeString(ParamsNotMatch())| == REFUSAL - 2
  {
    hide ParamsNotMatch;
    CodeTakesTwo(RPC_NO_MATCH);
  }

  /** What the client makes of what arrives of a refusal, whatever value is behind it. */
  lemma RefusedUnderstood(ret: Ty, v: Value)
    requires IsResult(ret, RPC_NO_MATCH, ParamsNotMatch(), v)
    ensures
      var reply := Cut(EncodeResult(ret, RPC_NO_MATCH, ParamsNotMatch(), v));
      var u := Understood(ret, reply);
      && u != Died && (u.Result? ==> u.code != 0)
      && (u == Failed(2, ParamsNotMatch()) <==> REFUSAL <= |reply| && IsSigned(|reply|, W32))
      && (u == Escaped <==> !IsSigned(|reply|, W32))
  {
    var whole := EncodeResult(ret, RPC_NO_MATCH, ParamsNotMatch(), v);
    hide EncodeResult, Understood, IsResult, ReadBack, ParamsNotMatch, Cut;
    CutIsPrefix(whole);
    ArrivedUnderstood(ret, Cut(whole));
    RefusedReadBack(ret, v, |Cut(whole)|);
  }

  lemma RefusedReadBack(ret: Ty, v: Value, n: nat)
    requires IsResult(ret, RPC_NO_MATCH, ParamsNotMatch(), v)
    requires n <= |EncodeResult(ret, RPC_NO_MATCH, ParamsNotMatch(), v)|
    ensures
      var u := ReadBack(ret, EncodeResult(ret, RPC_NO_MATCH, ParamsNotMatch(), v)[..n]);
      && u.Result? && u.code != 0
      && (u == Failed(2, ParamsNotMatch()) <==> n >= REFUSAL)
    ensures Failed(3, NotFound()) != Failed(2, ParamsNotMatch())
  {
    var whole := EncodeResult(ret, RPC_NO_MATCH, ParamsNotMatch(), v);
    var reply, c := whole[..n], Encode(ret, v, false);
    var head := EncodeScalar(CODE.scalar, RPC_NO_MATCH, false) + Wire.EncodeString(ParamsNotMatch());
    RefusalHead();
    hide EncodeScalar, Wire.EncodeString, DecodeResult, Encode, WellTyped, ParamsNotMatch, ReturnNotMatch, NotFound;
    assert whole == head + c;
    if n >= REFUSAL {
      assert reply == head + c[..n - REFUSAL];
      ResultHead(ret, RPC_NO_MATCH, ParamsNotMatch(), c[..n - REFUSAL], Full(n, BLOCK));
    } else {
      assert reply == head[..n];
      HeadCut(ret, RPC_NO_MATCH, ParamsNotMatch(), reply, Full(n, BLOCK));
    }
  }

  // ---- the laws ----

  /** A registered method called with arguments of its types. The handler gets what is left
      of the arguments after the detour of their enumerators, and the client gets code 0
      and what is left of the returned value, if and only if the size of neither content
      exceeds an `int` and neither message crashes its reader. A request that exceeds it is
      not answered, and a response that does makes `call` throw. */
  lemma RegisteredMethod(handlers: map<bytes, Handler>, name: bytes, args: Value)
    requires ValidTable(handlers) && name in handlers && |name| < Modulus(W64)
    requires WellTyped(handlers[name].params, args)
    ensures
      var h := handlers[name];
      var v := h.f(Narrowed(h.params, args));
      var content := RequestContent(name, h.params, args);
      var r := EndToEnd(handlers, content, h.ret);
      && WellTyped(h.ret, v)
      && (r == Some(Result(0, [], Some(Narrowed(h.ret, v)))) <==>
            && IsSigned(|content|, W32) && IsSigned(|EncodeResult(h.ret, RPC_SUCCESS, [], v)|, W32)
            && !ArgumentsCrash(h, args) && !ReplyCrashes(h.ret, v))
      && (IsSigned(|content|, W32) ==> (r == Some(Died) <==> ArgumentsCrash(h, args) || ReplyCrashes(h.ret, v)))
      && (IsSigned(|content|, W32) ==>
            (r == Some(Escaped) <==>
               !ArgumentsCrash(h, args) && !IsSigned(|Cut(EncodeResult(h.ret, RPC_SUCCESS, [], v))|, W32)))
      && (!IsSigned(|Cut(content)|, W32) ==> r == None)
      && (Narrowed(h.params, args) == args <==> EnumsFit(h.params, args))
      && (Narrowed(h.ret, v) == v <==> EnumsFit(h.ret, v))
  {
    var h := handlers[name];
    var content := RequestContent(name, h.params, args);
    HandlerReturns(h, args);
    hide *;
    NarrowedExactly(h.params, args);
    NarrowedExactly(h.ret, h.f(Narrowed(h.params, args)));
    ThroughBothFrames(handlers, content, h.ret);
    CutIsPrefix(content);
    if IsSigned(|content|, W32) {
      IntArrives(content);
      WholeRequest(handlers, name, args);
    } else {
      CutRequest(handlers, name, args, |Cut(content)|);
      CutNeverServes(h, args, |Wire.EncodeString(name)|, |Cut(content)|, EndToEnd(handlers, content, h.ret),
                     Narrowed(h.ret, h.f(Narrowed(h.params, args))));
    }
  }

  /** A content whose size is an `int` arrives whole. */
  lemma IntArrives(content: bytes)
    requires IsSigned(|content|, W32)
    ensures |content| < Modulus(W32) && Cut(content) == content
  {
  }

  lemma HandlerReturns(h: Handler, args: Value)
    requires h.Valid()
    ensures WellTyped(h.ret, h.f(Narrowed(h.params, args)))
  {
    hide WellTyped, Narrowed;
  }

  /** The outcome when all of the request arrives and is read. */
  lemma WholeRequest(handlers: map<bytes, Handler>, name: bytes, args: Value)
    requires ValidTable(handlers) && name in handlers && |name| < Modulus(W64)
    requires WellTyped(handlers[name].params, args)
    requires IsSigned(|RequestContent(name, handlers[name].params, args)|, W32)
    ensures
      var h := handlers[name];
      var v := h.f(Narrowed(h.params, args));
      var reply := EncodeResult(h.ret, RPC_SUCCESS, [], v);
      var r := Finish(h.ret, Handled(handlers, RequestContent(name, h.params, args)));
      && r == (if ArgumentsCrash(h, args) then Some(Died) else Some(Understood(h.ret, Cut(reply))))
      && (r == Some(Died) <==> ArgumentsCrash(h, args) || ReplyCrashes(h.ret, v))
      && (r == Some(Escaped) <==> !ArgumentsCrash(h, args) && !IsSigned(|Cut(reply)|, W32))
      && (r == Some(Result(0, [], Some(Narrowed(h.ret, v)))) <==>
            IsSigned(|reply|, W32) && !ArgumentsCrash(h, args) && !ReplyCrashes(h.ret, v))
  {
    var h := handlers[name];
    WholeHandled(handlers, name, args);
    hide Encode, EncodeResult, WellTyped, Proxied, Understood, Handled, Narrowed, IsSigned, Cut;
    hide RequestContent, ArgumentsCrash, ReplyCrashes, ValidTable;
    ServedUnderstood(h.ret, h.f(Narrowed(h.params, args)));
  }

  lemma WholeHandled(handlers: map<bytes, Handler>, name: bytes, args: Value)
    requires ValidTable(handlers) && name in handlers && |name| < Modulus(W64)
    requires WellTyped(handlers[name].params, args)
    requires IsSigned(|RequestContent(name, handlers[name].params, args)|, W32)
    ensures
      var h := handlers[name];
      var v := h.f(Narrowed(h.params, args));
      && WellTyped(h.ret, v)
      && Handled(handlers, RequestContent(name, h.params, args)) ==
           if ArgumentsCrash(h, args) then Crashed else Reply(EncodeResult(h.ret, RPC_SUCCESS, [], v))
  {
    var h := handlers[name];
    hide *;
    IntArrives(RequestContent(name, h.params, args));
    var e, a := Wire.EncodeString(name), Encode(h.params, args, false);
    ContentParts(name, h.params, args);
    CalledRegistered(handlers, name, a);
    HandlerReturns(h, args);
    ArrivedHandled(handlers, e + a);
    NameRead(handlers, name, a);
    ShorterIsInt(e, a);
    ArgumentsServed(h, args);
  }

  lemma ShorterIsInt(e: bytes, a: bytes)
    ensures IsSigned(|e + a|, W32) ==> IsSigned(|a|, W32)
  {
  }

  /** What comes of the first `j` bytes of a request whose name takes `e` of them. */
  ghost predicate CutOutcome(h: Handler, args: Value, e: nat, j: nat, r: Option<Outcome>)
    requires h.Valid() && WellTyped(h.params, args)
  {
    if j < e || !IsSigned(j, W32) then r == None
    else if Full(j - e, BLOCK) && Stops(h.params, args, j - e, false) then r == Some(Died)
    else RefusalOutcome(h, r)
  }

  /** What the client makes of the refusal, which holds a value that nobody set. */
  ghost predicate RefusalOutcome(h: Handler, r: Option<Outcome>)
    requires h.Valid()
  {
    RefusedResult(h);
    var reply := EncodeResult(h.ret, RPC_NO_MATCH, ParamsNotMatch(), h.unset);
    && r.Some? && r.value != Died && (r.value.Result? ==> r.value.code != 0)
    && (r == Some(Failed(2, ParamsNotMatch())) <==> RefusalArrives(h))
    && (r == Some(Escaped) <==> !IsSigned(|Cut(reply)|, W32))
  }

  lemma CutNeverServes(h: Handler, args: Value, e: nat, j: nat, r: Option<Outcome>, v: Value)
    requires h.Valid() && WellTyped(h.params, args) && CutOutcome(h, args, e, j, r)
    ensures r != Some(Result(0, [], Some(v)))
    ensures !IsSigned(j, W32) ==> r == None
  {
    hide RefusalArrives, Stops, Full, ParamsNotMatch, IsSigned, EncodeResult, Cut;
  }

  /** And when not all of it is: only its first `j` bytes arrive, or too many do. */
  lemma CutRequest(handlers: map<bytes, Handler>, name: bytes, args: Value, j: nat)
    requires ValidTable(handlers) && name in handlers && |name| < Modulus(W64)
    requires WellTyped(handlers[name].params, args) && j < Modulus(W32)
    requires
      var n := |RequestContent(name, handlers[name].params, args)|;
      j < n || (j == n && !IsSigned(n, W32))
    ensures
      var h := handlers[name];
      var r := Finish(h.ret, Handled(handlers, RequestContent(name, h.params, args)[..j]));
      CutOutcome(h, args, |Wire.EncodeString(name)|, j, r)
  {
    var h := handlers[name];
    var e := |Wire.EncodeString(name)|;
    hide *;
    CalledRegistered(handlers, name, []);
    CutHandled(handlers, name, args, j);
    if j < e || !IsSigned(j, W32) {
      NotAnswered(h, args, e, j);
    } else {
      CutInArguments(h, args, e, j);
    }
  }

  lemma CutHandled(handlers: map<bytes, Handler>, name: bytes, args: Value, j: nat)
    requires ValidTable(handlers) && name in handlers && |name| < Modulus(W64)
    requires WellTyped(handlers[name].params, args) && j < Modulus(W32)
    requires
      var n := |RequestContent(name, handlers[name].params, args)|;
      j < n || (j == n && !IsSigned(n, W32))
    ensures
      var h, n := handlers[name], j - |Wire.EncodeString(name)|;
      var handled := Handled(handlers, RequestContent(name, h.params, args)[..j]);
      if n < 0 || !IsSigned(j, W32) then handled == Thrown
      else n < |Encode(h.params, args, false)| && handled == Proxied(h, Encode(h.params, args, false)[..n])
  {
    var h := handlers[name];
    var e, a := Wire.EncodeString(name), Encode(h.params, args, false);
    hide *;
    ContentParts(name, h.params, args);
    PartHandled(handlers, name, a, j);
    if j >= |e| && IsSigned(j, W32) {
      CalledRegistered(handlers, name, a[..j - |e|]);
    }
  }

  lemma NotAnswered(h: Handler, args: Value, e: nat, j: nat)
    requires h.Valid() && WellTyped(h.params, args) && (j < e || !IsSigned(j, W32))
    ensures CutOutcome(h, args, e, j, Finish(h.ret, Thrown))
  {
    hide RefusalOutcome, Stops, Full, WellTyped, IsSigned;
  }

  lemma CutInArguments(h: Handler, args: Value, e: nat, j: nat)
    requires h.Valid() && WellTyped(h.params, args) && e <= j < e + |Encode(h.params, args, false)| && IsSigned(j, W32)
    ensures CutOutcome(h, args, e, j, Finish(h.ret, Proxied(h, Encode(h.params, args, false)[..j - e])))
  {
    hide *;
    var n: nat := j - e;
    PartIsInt(Encode(h.params, args, false)[..n], j);
    ArgumentsCut(h, args, n);
    PartOutcome(h, args, e, j, Encode(h.params, args, false)[..n]);
  }

  lemma PartIsInt(part: bytes, j: nat)
    requires |part| <= j && IsSigned(j, W32)
    ensures Wire.RowData(part) == Some(part)
  {
    Wire.RowDataExactly(part);
  }

  lemma PartOutcome(h: Handler, args: Value, e: nat, j: nat, part: bytes)
    requires h.Valid() && WellTyped(h.params, args) && e <= j == e + |part| && IsSigned(j, W32)
    ensures CutOutcome(h, args, e, j, Finish(h.ret, PartServed(h, args, Some(part))))
  {
    RefusalReaches(h);
    hide EncodeResult, WellTyped, ParamsNotMatch, Understood, Full, Stops, Cut, IsResult, RefusalOutcome, Handler.Valid;
  }

  lemma RefusalReaches(h: Handler)
    requires h.Valid()
    ensures IsResult(h.ret, RPC_NO_MATCH, ParamsNotMatch(), h.unset)
    ensures RefusalOutcome(h, Finish(h.ret, Reply(EncodeResult(h.ret, RPC_NO_MATCH, ParamsNotMatch(), h.unset))))
  {
    hide EncodeResult, WellTyped, ParamsNotMatch, Understood, Cut, IsResult, Handler.Valid, IsSigned;
    RefusedResult(h);
    RefusedUnderstood(h.ret, h.unset);
  }

  lemma ContentParts(name: bytes, ty: Ty, args: Value)
    requires |name| < Modulus(W64) && WellTyped(ty, args)
    ensures RequestContent(name, ty, args) == Wire.EncodeString(name) + Encode(ty, args, false)
  {
  }

  lemma RefusedResult(h: Handler)
    requires h.Valid()
    ensures IsResult(h.ret, RPC_NO_MATCH, ParamsNotMatch(), h.unset)
  {
  }

  /** A name nobody registered, whatever the arguments: `RPC_NO_METHOD`, if and only if the
      whole name arrives in a content whose size is an `int`. */
  lemma UnregisteredMethod(handlers: map<bytes, Handler>, name: bytes, arg: bytes, ret: Ty)
    requires ValidTable(handlers) && name !in handlers && |name| < Modulus(W64)
    ensures
      var content := Wire.EncodeString(name) + arg;
      EndToEnd(handlers, content, ret) ==
      if |Wire.EncodeString(name)| <= |Cut(content)| && IsSigned(|Cut(content)|, W32)
      then Some(Failed(3, NotFound())) else None
  {
    hide EndToEnd, NotFound, Wire.EncodeString, ReadBack, ValidTable, Cut, IsSigned;
    RequestRead(handlers, name, arg, ret);
    NothingCut();
  }

  lemma NothingCut()
    ensures Cut([]) == []
  {
  }

  /** Argument bytes that arrive and that the parameter types cannot be read from:
      `RPC_NO_MATCH`, if and only if the code and the message of the answer arrive, and
      neither content is too long. */
  lemma UnmatchedArguments(handlers: map<bytes, Handler>, name: bytes, arg: bytes)
    requires ValidTable(handlers) && name in handlers && |name| < Modulus(W64)
    requires |Wire.EncodeString(name)| <= |Cut(Wire.EncodeString(name) + arg)|
    requires
      var n := |Cut(Wire.EncodeString(name) + arg)| - |Wire.EncodeString(name)|;
      Decode(handlers[name].params, arg[..n], false, Full(n, BLOCK)).Throws?
    ensures
      var h := handlers[name];
      var k := |Cut(Wire.EncodeString(name) + arg)|;
      var r := EndToEnd(handlers, Wire.EncodeString(name) + arg, h.ret);
      && h.Valid()
      && (IsSigned(k, W32) ==> RefusalOutcome(h, r))
      && (!IsSigned(k, W32) ==> r == None)
  {
    var e := Wire.EncodeString(name);
    hide *;
    var k := |Cut(e + arg)|;
    CalledRegistered(handlers, name, arg[..k - |e|]);
    RequestRead(handlers, name, arg, handlers[name].ret);
    if IsSigned(k, W32) {
      Refused(handlers[name], arg[..k - |e|], k);
    } else {
      ThrownIsNone(handlers[name].ret);
    }
  }

  lemma ThrownIsNone(ret: Ty)
    ensures Finish(ret, Thrown) == None
  {
  }

  lemma CalledRegistered(handlers: map<bytes, Handler>, name: bytes, arg: bytes)
    requires ValidTable(handlers) && name in handlers
    ensures handlers[name].Valid() && Called(handlers, name, arg) == Proxied(handlers[name], arg)
  {
    hide Proxied, WellTyped;
  }

  lemma Refused(h: Handler, arg: bytes, k: nat)
    requires h.Valid() && Decode(h.params, arg, false, Full(|arg|, BLOCK)).Throws?
    requires |arg| <= k && IsSigned(k, W32)
    ensures RefusalOutcome(h, Finish(h.ret, Proxied(h, arg)))
  {
    hide Decode, WellTyped, ParamsNotMatch, Understood, EncodeResult, Full, Cut, IsResult, RefusalOutcome;
    Wire.RowDataExactly(arg);
    RefusalReaches(h);
  }

  /** A request cut off anywhere: without its name, or too long still, it is not answered,
      and with it the handler is not reached. The server dies if and only if the arguments
      are cut right behind an empty text where they fill a chunk; else it refuses. */
  lemma TruncatedArguments(handlers: map<bytes, Handler>, name: bytes, args: Value, k: nat)
    requires ValidTable(handlers) && name in handlers && |name| < Modulus(W64)
    requires WellTyped(handlers[name].params, args) && k < |RequestContent(name, handlers[name].params, args)|
    ensures
      var h := handlers[name];
      var content := RequestContent(name, h.params, args)[..k];
      CutOutcome(h, args, |Wire.EncodeString(name)|, |Cut(content)|, EndToEnd(handlers, content, h.ret))
  {
    var h := handlers[name];
    var whole := RequestContent(name, h.params, args);
    hide *;
    ThroughBothFrames(handlers, whole[..k], h.ret);
    CutTwice(whole, k);
    CutRequest(handlers, name, args, |Cut(whole[..k])|);
  }

  lemma CutTwice(content: bytes, k: nat)
    requires k < |content|
    ensures |Cut(content[..k])| < |content| && |Cut(content[..k])| < Modulus(W32)
    ensures Cut(content[..k]) == content[..|Cut(content[..k])|]
  {
    CutIsPrefix(content[..k]);
  }

  // ---- a client that asks for another type ----

  /** What a client that asks for `ret` makes of the value bytes `c` behind code 0: those
      bytes, read at its own type. */
  function ValueAs(ret: Ty, c: bytes): Outcome {
    match Decode(ret, c, false, Full(3 + |c|, BLOCK))
    case Done(w, _) => Result(RPC_SUCCESS, [], Some(w))
    case Throws(_) => Failed(RPC_NO_MATCH, ReturnNotMatch())
    case Faults(_) => Died
  }

  /** What it makes of the first `n` bytes of such a response. */
  function ReadAs(ret: Ty, c: bytes, n: nat): Outcome
    requires n <= 3 + |c|
  {
    if n == 0 then Failed(RPC_NO_METHOD, NotFound())
    else if !IsSigned(n, W32) then Escaped
    else if n < 3 then Failed(RPC_NO_MATCH, ReturnNotMatch())
    else ValueAs(ret, c[..n - 3])
  }

  lemma UnderstoodAs(served: Ty, v: Value, ret: Ty)
    requires WellTyped(served, v)
    ensures
      var reply := EncodeResult(served, RPC_SUCCESS, [], v);
      && |reply| == 3 + |Encode(served, v, false)|
      && Understood(ret, Cut(reply)) == ReadAs(ret, Encode(served, v, false), |Cut(reply)|)
  {
    ReplyLength(served, v);
    var reply := EncodeResult(served, RPC_SUCCESS, [], v);
    hide *;
    var n := |Cut(reply)|;
    CutIsPrefix(reply);
    ArrivedUnderstood(ret, Cut(reply));
    if n == 0 || !IsSigned(n, W32) {
      ReadAsEnds(ret, Encode(served, v, false), n);
    } else {
      ReadBackAs(served, v, ret, n);
    }
  }

  lemma ReadAsEnds(ret: Ty, c: bytes, n: nat)
    requires n <= 3 + |c| && (n == 0 || !IsSigned(n, W32))
    ensures ReadAs(ret, c, n) == if n == 0 then Failed(3, NotFound()) else Escaped
  {
    hide ValueAs, NotFound;
  }

  lemma ReadAsMiddle(ret: Ty, c: bytes, n: nat)
    requires 0 < n <= 3 + |c| && IsSigned(n, W32)
    ensures ReadAs(ret, c, n) ==
      if n < 3 then Failed(2, ReturnNotMatch()) else ValueAs(ret, c[..n - 3])
  {
    hide ValueAs, ReturnNotMatch;
  }

  lemma ReadBackValue(ret: Ty, c: bytes)
    ensures ReadBack(ret, EncodeScalar(CODE.scalar, RPC_SUCCESS, false) + Wire.EncodeString([]) + c) == ValueAs(ret, c)
  {
    CodeTakesTwo(RPC_SUCCESS);
    assert Wire.EncodeString([]) == [0];
    hide EncodeScalar, Wire.EncodeString, DecodeResult, Decode, ReturnNotMatch;
    ResultHead(ret, RPC_SUCCESS, [], c, Full(3 + |c|, BLOCK));
  }

  lemma ReadBackHead(ret: Ty, s: bytes)
    requires |s| < 3 && s <= EncodeScalar(CODE.scalar, RPC_SUCCESS, false) + Wire.EncodeString([])
    ensures ReadBack(ret, s) == Failed(2, ReturnNotMatch())
  {
    assert Wire.EncodeString([]) == [0];
    hide EncodeScalar, Wire.EncodeString, DecodeResult, ReturnNotMatch, Full;
    HeadCut(ret, RPC_SUCCESS, [], s, Full(|s|, BLOCK));
  }

  lemma ReadBackSplit(ret: Ty, head: bytes, c: bytes, n: nat)
    requires head == EncodeScalar(CODE.scalar, RPC_SUCCESS, false) + Wire.EncodeString([]) && |head| == 3
    requires n <= |head + c|
    ensures ReadBack(ret, (head + c)[..n]) ==
      if n < 3 then Failed(2, ReturnNotMatch()) else ValueAs(ret, c[..n - 3])
  {
    hide *;
    Prefix(head, c, n);
    if n < 3 {
      ReadBackHead(ret, head[..n]);
    } else {
      ReadBackValue(ret, c[..n - 3]);
    }
  }

  lemma ReadBackAs(served: Ty, v: Value, ret: Ty, n: nat)
    requires WellTyped(served, v) && 0 < n <= 3 + |Encode(served, v, false)| && IsSigned(n, W32)
    ensures n <= |EncodeResult(served, RPC_SUCCESS, [], v)|
    ensures ReadBack(ret, EncodeResult(served, RPC_SUCCESS, [], v)[..n]) == ReadAs(ret, Encode(served, v, false), n)
  {
    ReplyLength(served, v);
    SuccessHead(served, v);
    hide *;
    ReadAsMiddle(ret, Encode(served, v, false), n);
    ReadBackSplit(ret, EncodeScalar(CODE.scalar, RPC_SUCCESS, false) + Wire.EncodeString([]),
                  Encode(served, v, false), n);
  }

  /** The return type a client asks for is its own affair: it gets code 0 and the bytes of
      the value read at that type, or "return value not match", as those bytes have it. It
      gets code 0 from any type of the same shape as the one the handler returns. */
  lemma OtherReturnType(handlers: map<bytes, Handler>, name: bytes, args: Value, ret: Ty)
    requires ValidTable(handlers) && name in handlers && |name| < Modulus(W64)
    requires WellTyped(handlers[name].params, args)
    requires IsSigned(|RequestContent(name, handlers[name].params, args)|, W32)
    ensures
      var h := handlers[name];
      var v := h.f(Narrowed(h.params, args));
      var reply := EncodeResult(h.ret, RPC_SUCCESS, [], v);
      var r := EndToEnd(handlers, RequestContent(name, h.params, args), ret);
      && |reply| == 3 + |Encode(h.ret, v, false)|
      && r == Some(if ArgumentsCrash(h, args) then Died else ReadAs(ret, Encode(h.ret, v, false), |Cut(reply)|))
      && (Shape(ret) == Shape(h.ret) && IsSigned(|reply|, W32) && !ArgumentsCrash(h, args) && !ReplyCrashes(h.ret, v)
          ==> r.value.Result? && r.value.code == 0)
  {
    var h := handlers[name];
    var content := RequestContent(name, h.params, args);
    WholeHandled(handlers, name, args);
    IntArrives(content);
    hide Encode, EncodeResult, WellTyped, Understood, Handled, Narrowed, IsSigned, Cut, EndToEnd, ReadAs, Shape;
    hide RequestContent, ArgumentsCrash, ReplyCrashes, ValidTable;
    var v := h.f(Narrowed(h.params, args));
    ThroughBothFrames(handlers, content, ret);
    CutIsPrefix(content);
    UnderstoodAs(h.ret, v, ret);
    var reply := EncodeResult(h.ret, RPC_SUCCESS, [], v);
    if Shape(ret) == Shape(h.ret) && IsSigned(|reply|, W32) && !ReplyCrashes(h.ret, v) {
      ShapeSuffices(h.ret, v, ret);
    }
  }

  /** What reads back at a type reads at every type of its shape. */
  lemma ShapeServes(served: Ty, ret: Ty, c: bytes, n: nat, w: Value)
    requires Shape(ret) == Shape(served) && n == 3 + |c| && IsSigned(n, W32)
    requires ReadAs(served, c, n) == Result(0, [], Some(w))
    ensures ReadAs(ret, c, n).Result? && ReadAs(ret, c, n).code == 0
  {
    hide Decode, Shape, ReturnNotMatch, NotFound, Full;
    assert c[..|c|] == c;
    SameShape(served, ret, c, false, Full(n, BLOCK));
  }

  lemma ShapeSuffices(served: Ty, v: Value, ret: Ty)
    requires WellTyped(served, v) && Shape(ret) == Shape(served)
    requires IsSigned(|EncodeResult(served, RPC_SUCCESS, [], v)|, W32) && !ReplyCrashes(served, v)
    ensures
      var u := Understood(ret, Cut(EncodeResult(served, RPC_SUCCESS, [], v)));
      u.Result? && u.code == 0
  {
    ReplyLength(served, v);
    hide *;
    var c := Encode(served, v, false);
    IntArrives(EncodeResult(served, RPC_SUCCESS, [], v));
    ServedUnderstood(served, v);
    UnderstoodAs(served, v, served);
    UnderstoodAs(served, v, ret);
    ShapeServes(served, ret, c, |Cut(EncodeResult(served, RPC_SUCCESS, [], v))|, Narrowed(served, v));
  }

  // ---- two contents that are too long ----

  lemma TextLength(s: bytes)
    requires |s| < Modulus(W64)
    ensures WellTyped(Text, Str(s)) && |s| < |Encode(Text, Str(s), false)| <= |s| + 10
  {
    Varint.WordFitsScratch(|s|, W64);
  }

  /** An argument of one byte more than 2^31: the method is registered and the types agree,
      and there is no answer. */
  lemma LongArgument(handlers: map<bytes, Handler>, name: bytes, args: Value)
    requires ValidTable(handlers) && name in handlers && |name| < 0x1000
    requires handlers[name].params == Product(Text, Unit) && args == Pair(Str(seq(0x8000_0001, _ => 65)), Empty)
    ensures
      var h := handlers[name];
      && WellTyped(h.params, args) && EnumsFit(h.params, args) && !ArgumentsCrash(h, args)
      && EndToEnd(handlers, RequestContent(name, h.params, args), h.ret) == None
  {
    var h := handlers[name];
    TextLength(name);
    TextLength(args.first.s);
    assert Encode(Unit, Empty, false) == [];
    assert Encode(h.params, args, false) == Encode(Text, args.first, false) + [];
    hide EndToEnd, Handler.Valid, Encode, Cut;
    RegisteredMethod(handlers, name, args);
  }

  /** And such a text as the result: the client does not get it, and `call` throws. */
  lemma LongResult(handlers: map<bytes, Handler>, name: bytes, args: Value)
    requires ValidTable(handlers) && name in handlers && |name| < Modulus(W64)
    requires WellTyped(handlers[name].params, args) && !ArgumentsCrash(handlers[name], args)
    requires IsSigned(|RequestContent(name, handlers[name].params, args)|, W32)
    requires
      var h := handlers[name];
      h.ret == Text && h.f(Narrowed(h.params, args)) == Str(seq(0x8000_0001, _ => 65))
    ensures EndToEnd(handlers, RequestContent(name, handlers[name].params, args), Text) == Some(Escaped)
  {
    var h := handlers[name];
    var v := h.f(Narrowed(h.params, args));
    TextLength(v.s);
    ReplyLength(Text, v);
    hide EndToEnd, Encode, EncodeResult, RequestContent, ArgumentsCrash, ReplyCrashes, ValidTable, Cut, Narrowed;
    RegisteredMethod(handlers, name, args);
  }

  // ---- one call, byte by byte ----

  /** The name "add" and the `int32_t` 1 and 2. */
  lemma AddRequest(params: Ty, args: Value)
    requires params == Product(Base(Integer(W32, true)), Product(Base(Integer(W32, true)), Unit))
    requires args == Pair(Num(1), Pair(Num(2), Empty))
    ensures WellTyped(params, args) && EnumsFit(params, args) && Narrowed(params, args) == args
    ensures Encode(params, args, false) == [2, 4]
    ensures RequestContent([97, 100, 100], params, args) == [3, 97, 100, 100, 2, 4]
  {
    var int32 := Base(Integer(W32, true));
    ScalarBytes(Integer(W32, true), 1, false);
    ScalarBytes(Integer(W32, true), 2, false);
    TextExample([97, 100, 100]);
    NarrowedExactly(params, args);
    hide EncodeScalar, Wire.EncodeString, Narrowed;
    assert Encode(Product(int32, Unit), args.rest, false) == Encode(int32, Num(2), false) + [];
  }

  /** Its frame. */
  lemma RequestExample()
    ensures RequestFrame([3, 97, 100, 100, 2, 4]) == [9, 1, 5, 0, 0, 0, 0, 0, 0, 0, 6, 3, 97, 100, 100, 2, 4]
  {
    FrameExample(RequestMessage([3, 97, 100, 100, 2, 4]));
  }

  /** A frame with sequence number 0 and fewer than 256 bytes of content. */
  lemma FrameExample(m: Message)
    requires m.sequence == 0 && |m.content| < 256
    ensures Frame(m) == [m.magic, m.version, m.kind, 0, 0, 0, 0, 0, 0, 0, |m.content|] + m.content
  {
    SmallFrame(m);
    hide *;
    HeaderBytes(m);
    SmallWord(0);
    SmallWord(|m.content|);
    ThreeParts(Header(m), [m.magic, m.version, m.kind], [0, 0, 0, 0], [0, 0, 0, |m.content|]);
  }

  lemma SmallFrame(m: Message)
    requires m.sequence == 0 && |m.content| < 256
    ensures m.Valid() && Frame(m) == Header(m) + m.content && |m.content| % 0x1_0000_0000 == |m.content|
  {
    hide Header;
  }

  lemma ThreeParts(h: bytes, a: bytes, b: bytes, c: bytes)
    requires |h| == 11 && h[..3] == a && h[3..7] == b && h[7..11] == c
    ensures h == a + b + c
  {
  }

  lemma SmallWord(v: byte)
    ensures BigEndian(v, 4) == [0, 0, 0, v]
  {
    assert BigEndian(v / 256 / 256, 2) == BigEndian(v / 256 / 256 / 256, 1) + [0];
    assert BigEndian(v / 256 / 256 / 256, 1) == BigEndian(0, 0) + [0];
  }

  /** A server with "add" answers it with 3. */
  lemma CallExample(h: Handler, handlers: map<bytes, Handler>, args: Value)
    requires ValidTable(handlers) && handlers == map[[97, 100, 100] := h]
    requires h.params == Product(Base(Integer(W32, true)), Product(Base(Integer(W32, true)), Unit))
    requires h.ret == Base(Integer(W32, true))
    requires args == Pair(Num(1), Pair(Num(2), Empty)) && h.f(args) == Num(3)
    ensures Answer(handlers, [3, 97, 100, 100, 2, 4]) == Reply(Some(Message(9, 1, 6, 0, [0, 0, 0, 6])))
    ensures Frame(Message(9, 1, 6, 0, [0, 0, 0, 6])) == [9, 1, 6, 0, 0, 0, 0, 0, 0, 0, 4, 0, 0, 0, 6]
    ensures EndToEnd(handlers, [3, 97, 100, 100, 2, 4], h.ret) == Some(Result(0, [], Some(Num(3))))
  {
    hide *;
    KnownName(h, handlers, args);
    ShortAnswer(handlers, [3, 97, 100, 100, 2, 4], [0, 0, 0, 6]);
    FrameExample(Message(9, 1, 6, 0, [0, 0, 0, 6]));
  }

  /** A name that it does not know it answers with no content, of which the client makes
      code 3. */
  lemma UnknownExample(handlers: map<bytes, Handler>, ret: Ty)
    requires ValidTable(handlers) && [102] !in handlers
    ensures Answer(handlers, [1, 102]) == Reply(Some(Message(9, 1, 6, 0, [])))
    ensures Frame(Message(9, 1, 6, 0, [])) == [9, 1, 6, 0, 0, 0, 0, 0, 0, 0, 0]
    ensures EndToEnd(handlers, [1, 102], ret) == Some(Result(3, NotFound(), None))
  {
    hide *;
    UnknownName(handlers, ret);
    ShortAnswer(handlers, [1, 102], []);
    FrameExample(Message(9, 1, 6, 0, []));
  }

  lemma ShortAnswer(handlers: map<bytes, Handler>, content: bytes, reply: bytes)
    requires ValidTable(handlers) && |content| < 256 && Handled(handlers, content) == Reply(reply)
    ensures Answer(handlers, content) == Reply(Some(Message(9, 1, 6, 0, reply)))
  {
    hide Answer, Handled, ValidTable, Cut;
    ShortArrives(content);
    RequestArrives(handlers, content);
  }

  lemma ShortArrives(content: bytes)
    requires |content| < 256
    ensures Cut(content) == content
  {
  }

  lemma NoChunkFilled(h: Handler, args: Value, v: Value)
    requires WellTyped(h.params, args) && WellTyped(h.ret, v)
    requires |Encode(h.params, args, false)| < BLOCK && |EncodeResult(h.ret, RPC_SUCCESS, [], v)| < BLOCK
    ensures !ArgumentsCrash(h, args) && !ReplyCrashes(h.ret, v)
  {
    hide Encode, EncodeResult, EmptyTail, Stops, WellTyped;
  }

  lemma KnownName(h: Handler, handlers: map<bytes, Handler>, args: Value)
    requires ValidTable(handlers) && handlers == map[[97, 100, 100] := h]
    requires h.params == Product(Base(Integer(W32, true)), Product(Base(Integer(W32, true)), Unit))
    requires h.ret == Base(Integer(W32, true))
    requires args == Pair(Num(1), Pair(Num(2), Empty)) && h.f(args) == Num(3)
    ensures Handled(handlers, [3, 97, 100, 100, 2, 4]) == Reply([0, 0, 0, 6])
    ensures EndToEnd(handlers, [3, 97, 100, 100, 2, 4], h.ret) == Some(Result(0, [], Some(Num(3))))
  {
    AddRequest(h.params, args);
    ScalarBytes(Integer(W32, true), 3, false);
    ResultBytes(h.ret, RPC_SUCCESS, [], Num(3));
    assert EncodeResult(h.ret, RPC_SUCCESS, [], Num(3)) == [0, 0, 0, 6];
    assert Wire.EncodeString([97, 100, 100]) == [3, 97, 100, 100];
    assert IsSigned(6, W32) && IsSigned(4, W32);
    assert h.Valid() by {
      hide WellTyped;
      assert handlers[[97, 100, 100]] == h;
    }
    hide *;
    NoChunkFilled(h, args, Num(3));
    WholeHandled(handlers, [97, 100, 100], args);
    RegisteredMethod(handlers, [97, 100, 100], args);
    ShortArrives([0, 0, 0, 6]);
  }

  lemma UnknownName(handlers: map<bytes, Handler>, ret: Ty)
    requires ValidTable(handlers) && [102] !in handlers
    ensures Handled(handlers, [1, 102]) == Reply([])
    ensures EndToEnd(handlers, [1, 102], ret) == Some(Result(3, NotFound(), None))
  {
    assert Wire.EncodeString([102]) == [1, 102];
    assert [1, 102] + [] == [1, 102] && [1, 102][..2] == [1, 102];
    hide Handled, EndToEnd, ValidTable, NotFound, Wire.EncodeString;
    ShortArrives([1, 102]);
    PartHandled(handlers, [102], [], 2);
    UnregisteredMethod(handlers, [102], [], ret);
  }
}
