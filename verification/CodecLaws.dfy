/** What becomes of cut encodings, and which values share one. */
module CodecLaws {
  import opened Bytes
  import opened Words
  import opened Wire
  import opened Codec
  import Varint

  // ---- cut encodings ----

  /** The first `n` bytes of the encoding of `v`, and not all of it, end right behind an
      empty text that has just been read: in a full last chunk the cursor then stands at
      the null chunk pointer before that text is read. */
  predicate Stops(ty: Ty, v: Value, n: nat, little: bool)
    requires WellTyped(ty, v)
    decreases ty, 0
  {
    match ty
    case Product(t, u) =>
      var a := |Encode(t, v.first, little)|;
      if n < a then Stops(t, v.first, n, little)
      else (n == a && EmptyTail(t, v.first)) || Stops(u, v.rest, n - a, little)
    case Sequence(t) =>
      var a := |Varint.Encode(|v.vs|)|;
      n >= a && StopsAll(t, v.vs, n - a, little)
    case Ordered(t, _, _) =>
      var a := |Varint.Encode(|v.vs|)|;
      n >= a && StopsAll(t, v.vs, n - a, little)
    case _ => false
  }

  predicate StopsAll(ty: Ty, vs: seq<Value>, n: nat, little: bool)
    requires AllTyped(ty, vs)
    decreases ty, 1, |vs|
  {
    vs != [] &&
    var a := |Encode(ty, vs[0], little)|;
    if n < a then Stops(ty, vs[0], n, little)
    else (n == a && EmptyTail(ty, vs[0])) || StopsAll(ty, vs[1..], n - a, little)
  }

  /** The two ways a read can fail. */
  predicate Fails<T>(d: Parsed<T>, crash: bool) {
    if crash then d.Faults? else d.Throws?
  }

  lemma CutVarint(v: nat, n: nat)
    requires IsUnsigned(v, W64) && n < |Varint.Encode(v)|
    ensures Varint.Decode(Varint.Encode(v)[..n], W64).Throws?
  {
    var whole := Varint.Encode(v);
    var cut, more := whole[..n], whole[n..];
    assert cut + more == whole && whole + [] == whole;
    Varint.RoundTrip(v, W64, []);
    if Varint.Decode(cut, W64).Done? {
      Varint.Local(cut, W64, more);
    }
  }

  lemma CutText(s: bytes, n: nat, tight: bool)
    requires |s| < Modulus(W64) && n < |EncodeString(s)|
    ensures DecodeString(EncodeString(s)[..n], tight).Throws?
  {
    var head := Varint.Encode(|s|);
    if n < |head| {
      CutVarint(|s|, n);
      assert EncodeString(s)[..n] == head[..n];
    } else {
      assert EncodeString(s)[..n] == head + s[..n - |head|];
      Varint.RoundTrip(|s|, W64, s[..n - |head|]);
    }
  }

  /** A cut encoding never yields a value. In a buffer whose last chunk it fills the read
      hits the null chunk pointer if and only if the cut falls behind an empty text just
      read in full; otherwise, and in every other buffer, it throws. */
  lemma {:induction false} TruncatedFails(ty: Ty, v: Value, n: nat, little: bool, tight: bool)
    requires WellTyped(ty, v) && n < |Encode(ty, v, little)|
    ensures Fails(Decode(ty, Encode(ty, v, little)[..n], little, tight), tight && Stops(ty, v, n, little))
    decreases ty, 1
  {
    hide Decode, Stops, EncodeAll, Varint.Encode;
    match ty
    case Product(t, u) =>
      var a := |Encode(t, v.first, little)|;
      if n < a {
        TruncatedFails(t, v.first, n, little, tight);
      } else {
        TruncatedFails(u, v.rest, n - a, little, tight);
      }
      CutProduct(ty, v, n, little, tight);
    case Sequence(_) =>
      var a := |Varint.Encode(|v.vs|)|;
      if n >= a {
        TruncatedAllFail(ty, [], v.vs, n - a, little, tight);
      }
      CutContainer(ty, v, n, little, tight);
    case Ordered(_, _, _) =>
      var a := |Varint.Encode(|v.vs|)|;
      if n >= a {
        TruncatedAllFail(ty, [], v.vs, n - a, little, tight);
      }
      CutContainer(ty, v, n, little, tight);
    case _ => CutLeaf(ty, v, n, little, tight);
  }

  lemma CutLeaf(ty: Ty, v: Value, n: nat, little: bool, tight: bool)
    requires (ty.Base? || ty.Text? || ty.Unit?) && WellTyped(ty, v) && n < |Encode(ty, v, little)|
    ensures Fails(Decode(ty, Encode(ty, v, little)[..n], little, tight), tight && Stops(ty, v, n, little))
  {
    match ty
    case Base(k) => CutScalar(k, v.n, n, little);
    case Text => CutText(v.s, n, tight);
    case Unit =>
  }

  lemma CutProduct(ty: Ty, v: Value, n: nat, little: bool, tight: bool)
    requires ty.Product? && WellTyped(ty, v) && n < |Encode(ty, v, little)|
    requires
      var a, b := Encode(ty.first, v.first, little), Encode(ty.rest, v.rest, little);
      if n < |a| then Fails(Decode(ty.first, a[..n], little, tight), tight && Stops(ty.first, v.first, n, little))
      else Fails(Decode(ty.rest, b[..n - |a|], little, tight), tight && Stops(ty.rest, v.rest, n - |a|, little))
    ensures Fails(Decode(ty, Encode(ty, v, little)[..n], little, tight), tight && Stops(ty, v, n, little))
  {
    var a, b := Encode(ty.first, v.first, little), Encode(ty.rest, v.rest, little);
    if n < |a| {
      assert (a + b)[..n] == a[..n];
    } else {
      assert (a + b)[..n] == a + b[..n - |a|];
      Consumes(ty.first, v.first, b[..n - |a|], little, tight);
    }
  }

  lemma CutContainer(ty: Ty, v: Value, n: nat, little: bool, tight: bool)
    requires IsContainer(ty) && WellTyped(ty, v) && n < |Encode(ty, v, little)|
    requires
      var a, body := |Varint.Encode(|v.vs|)|, EncodeAll(ty.elem, v.vs, little);
      n >= a ==>
        Fails(DecodeInto(ty, |v.vs|, [], body[..n - a], little, tight), tight && StopsAll(ty.elem, v.vs, n - a, little))
    ensures Fails(Decode(ty, Encode(ty, v, little)[..n], little, tight), tight && Stops(ty, v, n, little))
  {
    hide EncodeAll, DecodeInto, StopsAll, Varint.Encode, Varint.Decode;
    var size, body := Varint.Encode(|v.vs|), EncodeAll(ty.elem, v.vs, little);
    if n < |size| {
      assert (size + body)[..n] == size[..n];
      CutVarint(|v.vs|, n);
    } else {
      assert (size + body)[..n] == size + body[..n - |size|];
      Varint.RoundTrip(|v.vs|, W64, body[..n - |size|]);
    }
  }

  lemma {:induction false} TruncatedAllFail(ty: Ty, c: seq<Value>, vs: seq<Value>, n: nat, little: bool, tight: bool)
    requires IsContainer(ty) && AllTyped(ty.elem, vs) && n < |EncodeAll(ty.elem, vs, little)|
    ensures Fails(DecodeInto(ty, |vs|, c, EncodeAll(ty.elem, vs, little)[..n], little, tight),
                  tight && StopsAll(ty.elem, vs, n, little))
    decreases ty, 0, |vs|
  {
    var a, b := Encode(ty.elem, vs[0], little), EncodeAll(ty.elem, vs[1..], little);
    if n < |a| {
      assert (a + b)[..n] == a[..n];
      TruncatedFails(ty.elem, vs[0], n, little, tight);
    } else {
      assert (a + b)[..n] == a + b[..n - |a|];
      Consumes(ty.elem, vs[0], b[..n - |a|], little, tight);
      TruncatedAllFail(ty, Add(ty, c, Narrowed(ty.elem, vs[0])), vs[1..], n - |a|, little, tight);
    }
  }

  lemma ScalarThrows(k: Scalar, s: bytes, little: bool)
    ensures !DecodeScalar(k, s, little).Faults?
  {
  }

  lemma CutScalar(k: Scalar, v: int, n: nat, little: bool)
    requires InRange(k, v) && n < |EncodeScalar(k, v, little)|
    ensures DecodeScalar(k, EncodeScalar(k, v, little)[..n], little).Throws?
  {
    var whole := EncodeScalar(k, v, little);
    hide EncodeScalar, DecodeScalar, InRange;
    var cut, more := whole[..n], whole[n..];
    assert cut + more == whole && whole + [] == whole;
    ScalarRoundTrip(k, v, [], little);
    ScalarThrows(k, cut, little);
    if DecodeScalar(k, cut, little).Done? {
      ScalarLocal(k, cut, little, more);
    }
  }

  /** A tuple of a text, an empty text and a byte, cut before the byte, where the cut
      fills one default chunk. */
  lemma StopExample(v: Value)
    requires v == Pair(Str(seq(4093, _ => 65)), Pair(Str([]), Pair(Num(7), Empty)))
    ensures
      var ty := Product(Text, Product(Text, Product(Base(Integer(W8, false)), Unit)));
      && WellTyped(ty, v) && |Encode(ty, v, false)| == 4097 && Stops(ty, v, 4096, false)
      && Decode(ty, Encode(ty, v, false)[..4096], false, true).Faults?
  {
    var byteTail := Product(Base(Integer(W8, false)), Unit);
    var ty := Product(Text, Product(Text, byteTail));
    assert Varint.Encode(4093) == [4093 % 0x80 + 0x80] + Varint.Encode(4093 / 0x80);
    assert |Encode(Text, v.first, false)| == 4095;
    assert Encode(Text, Str([]), false) == [0];
    assert Encode(byteTail, v.rest.rest, false) == [7] + Encode(Unit, Empty, false);
    TruncatedFails(ty, v, 4096, false, true);
  }

  // ---- shared encodings ----

  /** The format does not tell an enumeration from `int32_t`, nor a set from a list. */
  function Plain(ty: Ty): Ty {
    match ty
    case Base(Enum(_, _)) => Base(Integer(W32, true))
    case Product(t, u) => Product(Plain(t), Plain(u))
    case Sequence(t) => Sequence(Plain(t))
    case Ordered(t, _, _) => Sequence(Plain(t))
    case _ => ty
  }

  /** A value with every enumerator cut to its low 32 bits. */
  function LowWords(ty: Ty, v: Value): Value
    decreases ty, 0
  {
    match (ty, v)
    case (Base(Enum(_, _)), Num(n)) => Num(ToSigned(n, W32))
    case (Product(t, u), Pair(a, b)) => Pair(LowWords(t, a), LowWords(u, b))
    case (Sequence(t), Items(vs)) => Items(AllLowWords(t, vs))
    case (Ordered(t, _, _), Items(vs)) => Items(AllLowWords(t, vs))
    case _ => v
  }

  function AllLowWords(ty: Ty, vs: seq<Value>): seq<Value>
    decreases ty, 1, |vs|
  {
    if vs == [] then [] else [LowWords(ty, vs[0])] + AllLowWords(ty, vs[1..])
  }

  lemma {:induction false} PlainEncoding(ty: Ty, v: Value, little: bool)
    requires WellTyped(ty, v)
    ensures WellTyped(Plain(ty), LowWords(ty, v)) && EnumsFit(Plain(ty), LowWords(ty, v))
    ensures Encode(Plain(ty), LowWords(ty, v), little) == Encode(ty, v, little)
    decreases ty, 0
  {
    match ty
    case Base(Enum(_, _)) => LowWord(v.n);
    case Product(t, u) =>
      PlainEncoding(t, v.first, little);
      PlainEncoding(u, v.rest, little);
    case Sequence(t) => AllPlainEncodings(t, v.vs, little);
    case Ordered(t, _, _) => AllPlainEncodings(t, v.vs, little);
    case _ =>
  }

  lemma {:induction false} AllPlainEncodings(ty: Ty, vs: seq<Value>, little: bool)
    requires AllTyped(ty, vs)
    ensures |AllLowWords(ty, vs)| == |vs|
    ensures AllTyped(Plain(ty), AllLowWords(ty, vs)) && AllEnumsFit(Plain(ty), AllLowWords(ty, vs))
    ensures EncodeAll(Plain(ty), AllLowWords(ty, vs), little) == EncodeAll(ty, vs, little)
    decreases ty, 1, |vs|
  {
    if vs != [] {
      PlainEncoding(ty, vs[0], little);
      AllPlainEncodings(ty, vs[1..], little);
      assert AllLowWords(ty, vs)[1..] == AllLowWords(ty, vs[1..]);
    }
  }

  /** No encoding is a proper prefix of another one of its type, and two values have the
      same encoding if and only if they differ at most in the upper halves of their
      64-bit enumerators. */
  lemma PrefixFree(ty: Ty, v: Value, w: Value, little: bool)
    requires WellTyped(ty, v) && WellTyped(ty, w)
    ensures Encode(ty, v, little) <= Encode(ty, w, little) <==> LowWords(ty, v) == LowWords(ty, w)
    ensures LowWords(ty, v) == LowWords(ty, w) ==> Encode(ty, v, little) == Encode(ty, w, little)
  {
    hide *;
    PlainEncoding(ty, v, little);
    PlainEncoding(ty, w, little);
    if Encode(ty, v, little) <= Encode(ty, w, little) {
      SameRead(Plain(ty), LowWords(ty, v), LowWords(ty, w), little);
      FittingStays(Plain(ty), LowWords(ty, v));
      FittingStays(Plain(ty), LowWords(ty, w));
    }
  }

  lemma SameRead(ty: Ty, v: Value, w: Value, little: bool)
    requires WellTyped(ty, v) && WellTyped(ty, w)
    requires Encode(ty, v, little) <= Encode(ty, w, little)
    ensures Narrowed(ty, v) == Narrowed(ty, w)
  {
    hide Encode, Decode, Narrowed, WellTyped;
    var a, b := Encode(ty, v, little), Encode(ty, w, little);
    assert b == a + b[|a|..] && b == b + [];
    Consumes(ty, v, b[|a|..], little, false);
    Consumes(ty, w, [], little, false);
  }

  /** Values that share an encoding come back as the same value; so two values that come
      back whole never share one. */
  lemma SharedEncoding(ty: Ty, v: Value, w: Value, little: bool)
    requires WellTyped(ty, v) && WellTyped(ty, w) && LowWords(ty, v) == LowWords(ty, w)
    ensures Narrowed(ty, v) == Narrowed(ty, w)
    ensures EnumsFit(ty, v) && EnumsFit(ty, w) ==> v == w
  {
    hide *;
    PrefixFree(ty, v, w, little);
    SameRead(ty, v, w, little);
    NarrowedExactly(ty, v);
    NarrowedExactly(ty, w);
  }

  /** Two 64-bit enumerators with one encoding. */
  lemma EnumCollision()
    ensures
      var ty := Base(Enum(W64, false));
      && WellTyped(ty, Num(0)) && WellTyped(ty, Num(0x1_0000_0000))
      && forall little :: Encode(ty, Num(0), little) == Encode(ty, Num(0x1_0000_0000), little)
  {
    OneTurn(0x1_0000_0000, W32);
  }

  // ---- reading at another type ----

  /** The plainest type that takes the same bytes: the format does not tell signs, nor
      `bool` from a byte, nor an enumeration from a 32-bit integer, nor a set from a list. */
  function Shape(ty: Ty): Ty {
    match ty
    case Base(Bool) => Base(Integer(W8, false))
    case Base(Integer(w, _)) => Base(Integer(w, false))
    case Base(Enum(_, _)) => Base(Integer(W32, false))
    case Product(t, u) => Product(Shape(t), Shape(u))
    case Sequence(t) => Sequence(Shape(t))
    case Ordered(t, _, _) => Sequence(Shape(t))
    case _ => ty
  }

  /** Two reads that end in the same way at the same place. */
  predicate Alike<T, U>(d: Parsed<T>, t: Parsed<U>) {
    (d.Done? <==> t.Done?) && (d.Throws? <==> t.Throws?) && d.rest == t.rest
  }

  lemma ScalarReadsAsShape(k: Scalar, s: bytes, little: bool)
    ensures Alike(DecodeScalar(k, s, little), DecodeScalar(Shape(Base(k)).scalar, s, little))
  {
  }

  lemma {:induction false} ReadsAsShape(ty: Ty, s: bytes, little: bool, tight: bool)
    ensures Alike(Decode(ty, s, little, tight), Decode(Shape(ty), s, little, tight))
    decreases ty, 1
  {
    hide DecodeScalar, DecodeString;
    match ty
    case Base(k) => ScalarReadsAsShape(k, s, little);
    case Product(t, u) =>
      ReadsAsShape(t, s, little, tight);
      var d := Decode(t, s, little, tight);
      if d.Done? {
        ReadsAsShape(u, d.rest, little, tight);
      }
    case Text =>
    case Unit =>
    case _ =>
      hide Varint.Decode;
      var d := Varint.Decode(s, W64);
      if d.Done? {
        ReadsAllAsShape(ty, d.value, [], [], d.rest, little, tight);
      }
  }

  lemma {:induction false} ReadsAllAsShape(ty: Ty, n: nat, c: seq<Value>, c': seq<Value>, s: bytes, little: bool,
                                           tight: bool)
    requires IsContainer(ty)
    ensures Alike(DecodeInto(ty, n, c, s, little, tight), DecodeInto(Shape(ty), n, c', s, little, tight))
    decreases ty, 0, n
  {
    if n > 0 {
      ReadsAsShape(ty.elem, s, little, tight);
      var d, d' := Decode(ty.elem, s, little, tight), Decode(Shape(ty.elem), s, little, tight);
      if d.Done? {
        ReadsAllAsShape(ty, n - 1, Add(ty, c, d.value), Add(Shape(ty), c', d'.value), d.rest, little, tight);
      }
    }
  }

  /** Types of one shape read the same bytes, whatever the bytes are. */
  lemma SameShape(ty: Ty, ty': Ty, s: bytes, little: bool, tight: bool)
    requires Shape(ty) == Shape(ty')
    ensures Alike(Decode(ty, s, little, tight), Decode(ty', s, little, tight))
  {
    hide Decode, Shape;
    ReadsAsShape(ty, s, little, tight);
    ReadsAsShape(ty', s, little, tight);
  }
}
