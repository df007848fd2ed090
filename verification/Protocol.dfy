/** `Protocol`: the frames of the RPC stream,
    magic | version | type | sequence id | content length | content. */
module Protocols {
  import opened Bytes
  import opened Words
  import opened Wire
  import opened ByteArrays
  import Varint

  const MAGIC: byte := 0x09
  const DEFAULT_VERSION: byte := 0x01
  const BASE_LENGTH: nat := 11

  const RPC_METHOD_REQUEST: byte := 5
  const RPC_METHOD_RESPONSE: byte := 6

  /** A frame as a value. */
  datatype Message = Message(magic: byte, version: byte, kind: byte, sequence: nat, content: bytes) {
    predicate Valid() {
      IsUnsigned(sequence, W32)
    }
  }

  function Header(m: Message): (bs: bytes)
    requires m.Valid()
    ensures |bs| == BASE_LENGTH
  {
    [m.magic, m.version, m.kind] + EncodeFixed(m.sequence, W32, false)
    + EncodeFixed(ToUnsigned(|m.content|, W32), W32, false)
  }

  function Frame(m: Message): bytes
    requires m.Valid()
  {
    Header(m) + m.content
  }

  /** The eleven bytes of a header: magic, version and type, and then the sequence number
      and the length of the content, most significant byte first. */
  lemma HeaderBytes(m: Message)
    requires m.Valid()
    ensures Header(m)[..3] == [m.magic, m.version, m.kind]
    ensures Header(m)[3..7] == BigEndian(m.sequence, 4)
    ensures Header(m)[7..11] == BigEndian(|m.content| % 0x1_0000_0000, 4)
  {
    FixedBytes(m.sequence, W32, false, Unsigned, 0);
    FixedBytes(ToUnsigned(|m.content|, W32), W32, false, Unsigned, 0);
    hide EncodeFixed, BigEndian;
  }

  function ParseByte(s: bytes): Parsed<byte> {
    if s == [] then Throws(s) else Done(s[0], s[1..])
  }

  datatype Head = Head(magic: byte, version: byte, kind: byte, sequence: nat)

  function ParseHead(s: bytes, little: bool): (d: Parsed<Head>)
    ensures d.Done? ==> IsUnsigned(d.value.sequence, W32)
  {
    var (magic, s1) :- ParseByte(s);
    var (version, s2) :- ParseByte(s1);
    var (kind, s3) :- ParseByte(s2);
    DecodedFixedFits(s3, W32, little);
    var (sequence, s4) :- DecodeFixed(s3, W32, little);
    Done(Head(magic, version, kind, sequence), s4)
  }

  /** The fields of a header read over those of `h`, which stay where the bytes end. */
  function HeadOver(h: Head, s: bytes, little: bool): Head {
    Head(if |s| > 0 then s[0] else h.magic, if |s| > 1 then s[1] else h.version, if |s| > 2 then s[2] else h.kind,
         if |s| > 2 && DecodeFixed(s[3..], W32, little).Done? then DecodeFixed(s[3..], W32, little).value
         else h.sequence)
  }

  lemma HeadParsed(h: Head, s: bytes, little: bool)
    ensures var d := ParseHead(s, little); d.Done? ==> d.value == HeadOver(h, s, little)
    ensures !ParseHead(s, little).Faults?
  {
    if |s| > 2 {
      assert s[1..][1..][1..] == s[3..];
    }
  }

  /** The fields that a header cut behind `n` bytes still tells. */
  lemma PartialHeader(m: Message, h: Head, n: nat)
    requires m.Valid() && n <= BASE_LENGTH
    ensures HeadOver(h, Header(m)[..n], false) ==
      Head(if n > 0 then m.magic else h.magic, if n > 1 then m.version else h.version,
           if n > 2 then m.kind else h.kind, if n >= 7 then m.sequence else h.sequence)
  {
    var s := Header(m)[..n];
    if n >= 7 {
      var word := EncodeFixed(m.sequence, W32, false);
      assert s[3..] == word + s[7..];
      FixedRoundTrip(m.sequence, W32, false, s[7..]);
    }
  }

  /** `decodeMeta`: the header, the length last. */
  function ParseMeta(s: bytes, little: bool): Parsed<(Head, nat)> {
    var (h, rest) :- ParseHead(s, little);
    var (n, rest') :- DecodeFixed(rest, W32, little);
    Done((h, n), rest')
  }

  /** `decode`: a whole frame. */
  function ParseFrame(s: bytes, little: bool, tight: bool): (d: Parsed<Message>)
    ensures d.Done? ==> d.value.Valid()
  {
    var (h, rest) :- ParseHead(s, little);
    var (content, rest') :- DecodeStringFixed(rest, W32, little, tight);
    Done(Message(h.magic, h.version, h.kind, h.sequence, content), rest')
  }

  lemma ParseHeadOf(m: Message, rest: bytes)
    requires m.Valid()
    ensures
      var s := [m.magic, m.version, m.kind] + EncodeFixed(m.sequence, W32, false) + rest;
      ParseHead(s, false) == Done(Head(m.magic, m.version, m.kind, m.sequence), rest)
  {
    var word := EncodeFixed(m.sequence, W32, false);
    var s := [m.magic, m.version, m.kind] + word + rest;
    assert s[1..][1..][1..] == word + rest;
    FixedRoundTrip(m.sequence, W32, false, rest);
  }

  /** The header read back; it tells the length of the content modulo 2^32. */
  lemma ParseMetaOf(m: Message, rest: bytes)
    requires m.Valid()
    ensures ParseMeta(Header(m) + rest, false) ==
      Done((Head(m.magic, m.version, m.kind, m.sequence), ToUnsigned(|m.content|, W32)), rest)
  {
    var n := ToUnsigned(|m.content|, W32);
    var word := EncodeFixed(n, W32, false);
    assert Header(m) + rest == [m.magic, m.version, m.kind] + EncodeFixed(m.sequence, W32, false) + (word + rest);
    ParseHeadOf(m, word + rest);
    FixedRoundTrip(n, W32, false, rest);
  }

  /** Any eleven bytes are a header, and the only one that reads as it does. */
  lemma MetaOfAnyBytes(bs: bytes)
    requires |bs| == BASE_LENGTH
    ensures
      var d := ParseMeta(bs, false);
      && d.Done? && d.rest == [] && d.value.0.magic == bs[0]
      && IsUnsigned(d.value.0.sequence, W32) && IsUnsigned(d.value.1, W32)
      && bs == [d.value.0.magic, d.value.0.version, d.value.0.kind]
               + EncodeFixed(d.value.0.sequence, W32, false) + EncodeFixed(d.value.1, W32, false)
  {
    var s3 := bs[1..][1..][1..];
    assert s3 == bs[3..];
    DecodedFixedFits(s3, W32, false);
    var s7 := s3[4..];
    assert s7 == bs[7..] && s7[..4] == bs[7..11] && s3[..4] == bs[3..7];
    DecodedFixedFits(s7, W32, false);
    BigEndianOfBytes(bs[3..7]);
    BigEndianOfBytes(bs[7..11]);
    assert bs == [bs[0], bs[1], bs[2]] + bs[3..7] + bs[7..11];
  }

  /** Any bytes are read as a frame by the length that bytes 7 to 10 tell. */
  lemma FrameOfAnyBytes(s: bytes, tight: bool)
    ensures
      var d := ParseFrame(s, false, tight);
      if |s| < 11 || FromBigEndian(s[7..11]) > |s| - 11 then d.Throws?
      else
        var n := FromBigEndian(s[7..11]);
        if n == 0 && |s| == 11 && tight then d.Faults?
        else
          && d == Done(Message(s[0], s[1], s[2], FromBigEndian(s[3..7]), s[11..11 + n]), s[11 + n..])
          && IsUnsigned(FromBigEndian(s[3..7]), W32)
  {
    ThreeBytes(s);
    if |s| >= 3 {
      var s3 := s[3..];
      FixedRead(s3, W32, false, 0);
      if |s3| >= 4 {
        assert s3[..4] == s[3..7] && s3[4..] == s[7..];
        FixedRead(s[7..], W32, false, 0);
        if |s| >= 11 {
          assert s[7..][..4] == s[7..11] && s[7..][4..] == s[11..];
          hide DecodeFixed, FromBigEndian, ParseByte, FromLittleEndian;
          var n := FromBigEndian(s[7..11]);
          if n <= |s| - 11 {
            assert s[11..][..n] == s[11..11 + n] && s[11..][n..] == s[11 + n..];
          }
        }
      }
    }
  }

  lemma ThreeBytes(s: bytes)
    ensures ParseHead(s, false) ==
      if |s| < 3 then Throws([])
      else
        match DecodeFixed(s[3..], W32, false)
        case Done(sequence, rest) => Done(Head(s[0], s[1], s[2], sequence), rest)
        case Throws(rest) => Throws(rest)
        case Faults(rest) => Faults(rest)
  {
    if |s| >= 3 {
      assert s[1..][1..][1..] == s[3..];
    }
  }

  /** What of a content its length field tells of: all if it is shorter than 2^32 bytes. */
  function Cut(content: bytes): (cut: bytes)
    ensures cut <= content && |cut| < Modulus(W32)
    ensures |content| < Modulus(W32) <==> cut == content
  {
    Varint.ReducingShrinks(|content|, W32);
    assert |content| < Modulus(W32) ==> content[..|content|] == content;
    content[..ToUnsigned(|content|, W32)]
  }

  function Arrived(m: Message): Message {
    m.(content := Cut(m.content))
  }

  /** A frame is read as far as its length field tells, and the rest of it stays unread. */
  lemma FrameArrives(m: Message, rest: bytes, tight: bool)
    requires m.Valid()
    ensures ParseFrame(Frame(m) + rest, false, tight) ==
      if m.content == [] && rest == [] && tight then Faults([])
      else Done(Arrived(m), m.content[|Cut(m.content)|..] + rest)
  {
    var body := EncodeStringFixed(m.content, W32, false);
    assert Frame(m) + rest == [m.magic, m.version, m.kind] + EncodeFixed(m.sequence, W32, false) + (body + rest);
    ParseHeadOf(m, body + rest);
    StringFixedArrives(m.content, W32, false, rest, tight);
  }

  /** It starts with the frame of what arrives. */
  lemma ArrivedFrame(m: Message)
    requires m.Valid()
    ensures Frame(Arrived(m)) <= Frame(m)
  {
    OneTurn(|Cut(m.content)|, W32);
    assert Header(Arrived(m)) == Header(m);
    assert m.content == Cut(m.content) + m.content[|Cut(m.content)|..];
    assert Frame(m) == Frame(Arrived(m)) + m.content[|Cut(m.content)|..];
  }

  /** A frame comes back, with exactly the bytes behind it unread, if and only if its
      content is shorter than 2^32 bytes and it is not an empty frame that ends at the
      end of the last chunk. */
  lemma FrameRoundTrip(m: Message, rest: bytes, tight: bool)
    requires m.Valid()
    ensures ParseFrame(Frame(m) + rest, false, tight) == Done(m, rest)
      <==> |m.content| < Modulus(W32) && !(m.content == [] && rest == [] && tight)
  {
    hide ParseFrame, Frame;
    FrameArrives(m, rest, tight);
    if Cut(m.content) == m.content {
      assert m.content[|m.content|..] + rest == rest;
    }
  }

  class Protocol {
    var magic: byte
    var version: byte
    var kind: byte
    var sequenceId: nat
    var contentLength: nat
    var content: bytes

    ghost predicate Valid()
      reads this
    {
      IsUnsigned(sequenceId, W32)
    }

    function ToMessage(): Message
      reads this
    {
      Message(magic, version, kind, sequenceId, content)
    }

    constructor ()
      ensures Valid() && ToMessage() == Message(9, 1, 0, 0, []) && contentLength == 0
    {
      magic := MAGIC;
      version := DEFAULT_VERSION;
      kind := 0;
      sequenceId := 0;
      contentLength := 0;
      content := [];
    }

    /** `Create`; the content length is not set. */
    static method Create(kind: byte, content: bytes, id: nat) returns (p: Protocol)
      requires IsUnsigned(id, W32)
      ensures fresh(p) && p.Valid() && p.contentLength == 0
      ensures p.ToMessage() == Message(9, 1, kind, id, content)
    {
      p := new Protocol();
      p.kind := kind;
      p.content := content;
      p.sequenceId := id;
    }

    /** The part `encode` and `encodeMeta` share. */
    static method WriteHead(bt: ByteArray, h: Head)
      requires bt.Valid() && !bt.littleEndian && IsUnsigned(h.sequence, W32)
      modifies bt.Repr
      ensures bt.Wrote([h.magic, h.version, h.kind] + EncodeFixed(h.sequence, W32, false))
    {
      hide ByteArray.Valid, ByteArray.Snap, WrittenSince;
      ghost var s := bt.Snap();
      bt.WriteFuint8(h.magic);
      ghost var s1 := bt.Snap();
      bt.WriteFuint8(h.version);
      WrittenMore(s, s1, bt.Snap(), bt.baseSize, [h.magic], [h.version]);
      ghost var s2 := bt.Snap();
      bt.WriteFuint8(h.kind);
      WrittenMore(s, s2, bt.Snap(), bt.baseSize, [h.magic] + [h.version], [h.kind]);
      ghost var s3 := bt.Snap();
      bt.WriteFint(h.sequence, W32);
      assert [h.magic] + [h.version] + [h.kind] == [h.magic, h.version, h.kind];
      WrittenMore(s, s3, bt.Snap(), bt.baseSize,
                  [h.magic, h.version, h.kind], EncodeFixed(h.sequence, W32, false));
    }

    method EncodeMeta() returns (bt: ByteArray)
      requires Valid()
      ensures fresh(bt.Repr) && HoldsExactly(bt, BLOCK, Header(ToMessage()))
    {
      hide ByteArray.Links, ByteArray.Holds, WrittenSince;
      bt := new ByteArray(BLOCK);
      ghost var s := bt.Snap();
      WriteHead(bt, Head(magic, version, kind, sequenceId));
      ghost var mid := bt.Snap();
      bt.WriteFint(ToUnsigned(|content|, W32), W32);
      WrittenMore(s, mid, bt.Snap(), BLOCK, [magic, version, kind] + EncodeFixed(sequenceId, W32, false),
                  EncodeFixed(ToUnsigned(|content|, W32), W32, false));
      Rewind(bt, Header(ToMessage()), s);
    }

    method Encode() returns (bt: ByteArray)
      requires Valid()
      ensures fresh(bt.Repr) && HoldsExactly(bt, BLOCK, Frame(ToMessage()))
    {
      hide ByteArray.Links, ByteArray.Holds, WrittenSince;
      bt := new ByteArray(BLOCK);
      ghost var s := bt.Snap();
      WriteHead(bt, Head(magic, version, kind, sequenceId));
      ghost var mid := bt.Snap();
      bt.WriteStringFixed(content, W32);
      ghost var head := [magic, version, kind] + EncodeFixed(sequenceId, W32, false);
      WrittenMore(s, mid, bt.Snap(), BLOCK, head, EncodeStringFixed(content, W32, false));
      assert head + EncodeStringFixed(content, W32, false) == Frame(ToMessage());
      Rewind(bt, Frame(ToMessage()), s);
    }

    /** Back to the start of an empty buffer into which `data` has been written. */
    static method Rewind(bt: ByteArray, ghost data: bytes, ghost s: Snapshot)
      requires bt.Valid() && !bt.littleEndian && bt.baseSize == BLOCK
      requires s.position == s.size == 0 && s.capacity == BLOCK && WrittenSince(s, bt.Snap(), BLOCK, data)
      modifies bt`position, bt`size, bt`cur, bt`at
      ensures HoldsExactly(bt, BLOCK, data)
    {
      var ok := bt.SetPosition(0);
      bt.TightWhenFull();
    }

    function Fields(): Head
      reads this
    {
      Head(magic, version, kind, sequenceId)
    }

    /** A throw leaves the fields that were read, and the others as they were. */
    method DecodeMeta(bt: ByteArray) returns (r: Read<()>)
      requires bt.Valid() && this !in bt.Repr
      modifies bt`position, bt`cur, bt`at, this
      ensures Fields() == HeadOver(old(Fields()), old(bt.Readable()), bt.littleEndian) && content == old(content)
      ensures
        var d := ParseMeta(old(bt.Readable()), bt.littleEndian);
        && bt.Advanced(d.rest)
        && (if d.Done? then r == Value(()) && Valid() && Fields() == d.value.0 && contentLength == d.value.1
            else r == OutOfRange && contentLength == old(contentLength))
    {
      hide ByteArray.Valid, ByteArray.Mem, ByteArray.Readable, ParseHead, DecodeStringFixed, DecodeFixed, HeadOver;
      HeadParsed(Fields(), bt.Readable(), bt.littleEndian);
      var ok := ReadHead(bt);
      if !ok {
        return OutOfRange;
      }
      var n := bt.ReadFint(W32);
      if !n.Value? {
        return OutOfRange;
      }
      contentLength := n.value;
      r := Value(());
    }

    method Decode(bt: ByteArray) returns (r: Read<()>)
      requires bt.Valid() && this !in bt.Repr
      modifies bt`position, bt`cur, bt`at, this
      ensures Fields() == HeadOver(old(Fields()), old(bt.Readable()), bt.littleEndian)
      ensures
        var d := ParseFrame(old(bt.Readable()), bt.littleEndian, old(bt.Tight()));
        && bt.Advanced(d.rest)
        && (if d.Done? then r == Value(()) && Valid() && ToMessage() == d.value && contentLength == |content|
            else
              && r == (if d.Throws? then OutOfRange else NullChunk)
              && content == old(content) && contentLength == old(contentLength))
    {
      hide ByteArray.Valid, ByteArray.Mem, ByteArray.Readable, ParseHead, DecodeStringFixed, DecodeFixed, HeadOver;
      HeadParsed(Fields(), bt.Readable(), bt.littleEndian);
      var ok := ReadHead(bt);
      if !ok {
        return OutOfRange;
      }
      var s := bt.ReadStringFixed(W32);
      if !s.Value? {
        return if s.OutOfRange? then OutOfRange else NullChunk;
      }
      content := s.value;
      contentLength := |content|;
      r := Value(());
    }

    /** The reads `decode` and `decodeMeta` share; not `ok` where one of them throws. */
    method ReadHead(bt: ByteArray) returns (ok: bool)
      requires bt.Valid() && this !in bt.Repr
      modifies bt`position, bt`cur, bt`at, `magic, `version, `kind, `sequenceId
      ensures ok <==> ParseHead(old(bt.Readable()), bt.littleEndian).Done?
      ensures bt.Advanced(ParseHead(old(bt.Readable()), bt.littleEndian).rest)
      ensures Fields() == HeadOver(old(Fields()), old(bt.Readable()), bt.littleEndian)
    {
      hide ByteArray.Valid, ByteArray.Mem, ByteArray.Readable, DecodeFixed;
      ok := false;
      ghost var s := bt.Readable();
      var b := bt.ReadFuint8();
      if !b.Value? {
        return;
      }
      magic := b.value;
      b := bt.ReadFuint8();
      if !b.Value? {
        return;
      }
      version := b.value;
      b := bt.ReadFuint8();
      if !b.Value? {
        return;
      }
      kind := b.value;
      assert bt.Readable() == s[3..];
      var word := bt.ReadFint(W32);
      if !word.Value? {
        return;
      }
      sequenceId := word.value;
      ok := true;
    }
  }
}
