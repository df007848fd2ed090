/** The byte formats `ByteArray` writes and reads: fixed-width integers, varints and
    length-prefixed strings. */
module Wire {
  import opened Bytes
  import opened Words
  import Varint

  /** `writeFint`: the word's memory, swapped first unless the stream is little endian. */
  function EncodeFixed(v: nat, w: Width, little: bool, kind: Kind := Unsigned): (bs: bytes)
    requires IsIntegral(v, w, kind)
    ensures |bs| == Size(w)
  {
    if little then LittleEndian(v, Size(w))
    else if w == W8 then LittleEndian(ByteSwap(v, w, kind), 1)
    else BigEndian(v, Size(w))
  }

  function DecodeFixed(s: bytes, w: Width, little: bool): Parsed<nat> {
    var n := Size(w);
    if |s| < n then Throws(s)
    else Done(if little then FromLittleEndian(s[..n]) else FromBigEndian(s[..n]), s[n..])
  }

  /** A fixed-width word survives exactly when it is not a swapped byte that is not its
      own sign. */
  lemma FixedRoundTrip(v: nat, w: Width, little: bool, rest: bytes, kind: Kind := Unsigned)
    requires IsIntegral(v, w, kind)
    ensures DecodeFixed(EncodeFixed(v, w, little, kind) + rest, w, little) == Done(v, rest)
      <==> little || w != W8 || v == 0 || (kind.Signed? && v == 0xFF) || kind.Boolean?
  {
    var s := EncodeFixed(v, w, little, kind) + rest;
    assert s[..Size(w)] == EncodeFixed(v, w, little, kind) && s[Size(w)..] == rest;
    ModulusIsPow256(w);
    if little {
      LittleEndianRoundTrip(v, Size(w));
    } else if w == W8 {
      ByteSwapOfByte(v, kind);
      hide ByteSwap;
      ByteWord(ByteSwap(v, w, kind));
    } else {
      BigEndianRoundTrip(v, Size(w));
    }
  }

  lemma ByteWord(b: byte)
    ensures LittleEndian(b, 1) == [b] && FromBigEndian([b]) == b
  {
    assert FromBigEndian([]) == 0 && [b][..0] == [];
  }

  /** The most significant byte of a word comes first, in a little-endian stream last. */
  lemma FixedBytes(v: nat, w: Width, little: bool, kind: Kind, i: nat)
    requires w != W8 && IsIntegral(v, w, kind) && i < Size(w)
    ensures EncodeFixed(v, w, little, kind)[i] == v / Pow256(if little then i else Size(w) - 1 - i) % 256
    ensures EncodeFixed(v, w, little, kind) == if little then LittleEndian(v, Size(w)) else BigEndian(v, Size(w))
  {
    LittleEndianAt(v, Size(w), i);
    BigEndianAt(v, Size(w), i);
  }

  lemma DecodedFixedFits(s: bytes, w: Width, little: bool)
    ensures DecodeFixed(s, w, little).Done? ==> IsUnsigned(DecodeFixed(s, w, little).value, w)
  {
    var n := Size(w);
    if |s| >= n {
      ModulusIsPow256(w);
      FromBigEndianBound(s[..n]);
      ReverseReverse(s[..n]);
      FromLittleEndianReversed(Reverse(s[..n]));
      FromBigEndianBound(Reverse(s[..n]));
    }
  }

  /** And so it is read: what is read is the word with these bytes. */
  lemma FixedRead(s: bytes, w: Width, little: bool, i: nat)
    requires w != W8 && i < Size(w)
    ensures
      var d := DecodeFixed(s, w, little);
      if |s| < Size(w) then d == Throws(s)
      else
        && d.Done? && d.rest == s[Size(w)..] && IsUnsigned(d.value, w)
        && d.value / Pow256(if little then i else Size(w) - 1 - i) % 256 == s[i]
        && d.value == (if little then FromLittleEndian(s[..Size(w)]) else FromBigEndian(s[..Size(w)]))
  {
    var n := Size(w);
    DecodedFixedFits(s, w, little);
    if |s| >= n {
      var bs, v := s[..n], DecodeFixed(s, w, little).value;
      if little {
        BytesOfLittleEndian(bs);
        LittleEndianAt(v, n, i);
      } else {
        BigEndianOfBytes(bs);
        BigEndianAt(v, n, i);
      }
    }
  }

  lemma BytesOfLittleEndian(bs: bytes)
    ensures LittleEndian(FromLittleEndian(bs), |bs|) == bs
  {
    var v, n := FromLittleEndian(bs), |bs|;
    ReverseReverse(bs);
    FromLittleEndianReversed(Reverse(bs));
    BigEndianOfBytes(Reverse(bs));
    LittleEndianReversed(v, n);
    ReverseReverse(LittleEndian(v, n));
  }

  lemma FixedLocal(s: bytes, w: Width, little: bool, more: bytes)
    requires DecodeFixed(s, w, little).Done?
    ensures var d := DecodeFixed(s, w, little);
      DecodeFixed(s + more, w, little) == Done(d.value, d.rest + more)
  {
    assert (s + more)[..Size(w)] == s[..Size(w)];
    assert (s + more)[Size(w)..] == s[Size(w)..] + more;
  }

  /** `writeStringVint`. */
  function EncodeString(s: bytes): bytes {
    Varint.Encode(|s|) + s
  }

  function DecodeString(s: bytes, tight: bool): Parsed<bytes> {
    var (n, rest) :- Varint.Decode(s, W64);
    Fetch(rest, n, tight)
  }

  /** A string comes back, except that an empty one which ends the data at the end of
      the last chunk is read through the null chunk pointer. */
  lemma StringRoundTrip(s: bytes, rest: bytes, tight: bool)
    requires |s| < Modulus(W64)
    ensures DecodeString(EncodeString(s) + rest, tight) ==
      if s == [] && rest == [] && tight then Faults([]) else Done(s, rest)
  {
    assert EncodeString(s) + rest == Varint.Encode(|s|) + (s + rest);
    Varint.RoundTrip(|s|, W64, s + rest);
    assert (s + rest)[..|s|] == s && (s + rest)[|s|..] == rest;
  }

  lemma StringLocal(s: bytes, tight: bool, more: bytes, tight': bool)
    requires DecodeString(s, tight).Done? && (tight' ==> tight || more != [])
    ensures var d := DecodeString(s, tight); DecodeString(s + more, tight') == Done(d.value, d.rest + more)
  {
    Varint.Local(s, W64, more);
    var d := Varint.Decode(s, W64);
    assert (d.rest + more)[..d.value] == d.rest[..d.value];
    assert (d.rest + more)[d.value..] == d.rest[d.value..] + more;
  }

  /** `writeStringF16/32/64`: the length is cut to the width of its field, the content
      is not. */
  function EncodeStringFixed(s: bytes, w: Width, little: bool): bytes {
    EncodeFixed(ToUnsigned(|s|, w), w, little) + s
  }

  function DecodeStringFixed(s: bytes, w: Width, little: bool, tight: bool): Parsed<bytes> {
    var (n, rest) :- DecodeFixed(s, w, little);
    Fetch(rest, n, tight)
  }

  lemma FetchPart(s: bytes, n: nat, rest: bytes, tight: bool)
    requires n <= |s|
    ensures Fetch(s + rest, n, tight) ==
      if s == [] && rest == [] && tight then Faults([]) else Done(s[..n], s[n..] + rest)
  {
    assert (s + rest)[..n] == s[..n] && (s + rest)[n..] == s[n..] + rest;
  }

  /** What comes back: as many bytes as the length field tells, the others unread. */
  lemma StringFixedArrives(s: bytes, w: Width, little: bool, rest: bytes, tight: bool)
    requires w != W8
    ensures
      var n := ToUnsigned(|s|, w);
      n <= |s| && DecodeStringFixed(EncodeStringFixed(s, w, little) + rest, w, little, tight) ==
        if s == [] && rest == [] && tight then Faults([]) else Done(s[..n], s[n..] + rest)
  {
    var n := ToUnsigned(|s|, w);
    Varint.ReducingShrinks(|s|, w);
    OneTurn(0, w);
    hide EncodeFixed, DecodeFixed, ToUnsigned, Fetch;
    assert EncodeStringFixed(s, w, little) + rest == EncodeFixed(n, w, little) + (s + rest);
    FixedRoundTrip(n, w, little, s + rest);
    FetchPart(s, n, rest, tight);
  }

  /** A string with a fixed-width length comes back exactly when its length fits the
      field and it is not an empty one at the end of the last chunk. */
  lemma StringFixedRoundTrip(s: bytes, w: Width, little: bool, rest: bytes, tight: bool)
    requires w != W8
    ensures DecodeStringFixed(EncodeStringFixed(s, w, little) + rest, w, little, tight) == Done(s, rest)
      <==> |s| < Modulus(w) && !(s == [] && rest == [] && tight)
  {
    StringFixedArrives(s, w, little, rest, tight);
    var n := ToUnsigned(|s|, w);
    if |s| < Modulus(w) {
      OneTurn(|s|, w);
      assert s[..n] == s && s[n..] + rest == rest;
    } else {
      assert |s[..n]| < |s|;
    }
  }

  /** What `writeRowData` writes of a whole string, whose size it takes as an `int`: a
      negative one becomes a size that no memory has room for, and the failed allocation
      throws. */
  function RowData(s: bytes): Option<bytes> {
    Varint.ReducingShrinks(|s|, W32);
    var len := ToSigned(|s|, W32);
    if len < 0 then None else Some(s[..len])
  }

  /** All of it is written if and only if its size is an `int`. */
  lemma RowDataExactly(s: bytes)
    ensures RowData(s) == Some(s) <==> |s| < Modulus(W32) / 2
    ensures |s| < Modulus(W32) ==> (RowData(s) == None <==> |s| >= Modulus(W32) / 2)
    ensures RowData(s).Some? <==> |s| % 0x1_0000_0000 < 0x8000_0000
    ensures RowData(s).Some? ==> RowData(s).value <= s && |RowData(s).value| == |s| % 0x1_0000_0000
  {
    if |s| < Modulus(W32) {
      OneTurn(|s|, W32);
      assert s[..|s|] == s;
    }
    if RowData(s).Some? {
      assert |RowData(s).value| == ToSigned(|s|, W32);
    }
  }
}
