/** What the bytes of the format are, spelled out: the scalars on all values, everything
    else at an example. */
module Layouts {
  import opened Bytes
  import opened Words
  import opened Wire
  import opened Codec
  import Varint

  /** The bytes of every scalar: one byte; two, the most significant one first; for 32 and
      64 bits the base-128 groups of the value, of a signed one after ZigZag; floating-point
      numbers as words; an enumerator as its low 32 bits, signed. */
  lemma ScalarBytes(k: Scalar, n: int, little: bool)
    requires InRange(k, n)
    ensures EncodeScalar(k, n, little) ==
      match k
      case Bool => [n]
      case Integer(W8, _) => [if n < 0 then n + 0x100 else n]
      case Integer(W16, _) =>
        var u := if n < 0 then n + 0x1_0000 else n;
        if little then [u % 0x100, u / 0x100] else [u / 0x100, u % 0x100]
      case Integer(_, true) => Varint.Encode(if n < 0 then -2 * n - 1 else 2 * n)
      case Integer(_, false) => Varint.Encode(n)
      case Float32 => if little then LittleEndian(n, 4) else BigEndian(n, 4)
      case Float64 => if little then LittleEndian(n, 8) else BigEndian(n, 8)
      case Enum(_, _) =>
        var u := n % 0x1_0000_0000;
        Varint.Encode(if u < 0x8000_0000 then 2 * u else 2 * (0x1_0000_0000 - u) - 1)
  {
    match k
    case Bool =>
    case Integer(w, signed) => IntegerBytes(n, w, signed, little);
    case Float32 =>
    case Float64 =>
    case Enum(_, _) => EncodeZigzagValue(ToSigned(n, W32), W32);
  }

  lemma IntegerBytes(n: int, w: Width, signed: bool, little: bool)
    requires InRange(Integer(w, signed), n)
    ensures w == W8 ==> EncodeInteger(n, w, signed, little) == [if n < 0 then n + 0x100 else n]
    ensures
      var u := if n < 0 then n + 0x1_0000 else n;
      w == W16 ==>
        EncodeInteger(n, w, signed, little) == if little then [u % 0x100, u / 0x100] else [u / 0x100, u % 0x100]
    ensures
      var u := if !signed then n else if n < 0 then -2 * n - 1 else 2 * n;
      w == W32 || w == W64 ==> EncodeInteger(n, w, signed, little) == Varint.Encode(u)
  {
    OneTurn(n, w);
    if w == W16 {
      TwoBytes(ToUnsigned(n, W16));
    } else if w != W8 && signed {
      EncodeZigzagValue(n, w);
    }
  }

  lemma TwoBytes(u: nat)
    requires u < 0x1_0000
    ensures LittleEndian(u, 2) == [u % 0x100, u / 0x100] && BigEndian(u, 2) == [u / 0x100, u % 0x100]
  {
    assert LittleEndian(u / 256, 1) == [u / 256 % 256] + LittleEndian(u / 256 / 256, 0);
    assert BigEndian(u / 256, 1) == BigEndian(u / 256 / 256, 0) + [u / 256 % 256];
  }

  /** What is read from any bytes. */
  lemma ScalarRead(k: Scalar, s: bytes, little: bool)
    ensures DecodeScalar(k, s, little) ==
      match k
      case Bool => if s == [] then Throws(s) else Done(if s[0] == 0 then 0 else 1, s[1..])
      case Integer(W8, signed) =>
        if s == [] then Throws(s)
        else
          var u: int := s[0];
          Done(if signed && u >= 0x80 then u - 0x100 else u, s[1..])
      case Integer(W16, signed) =>
        if |s| < 2 then Throws(s)
        else
          var a: int, b: int := s[0], s[1];
          var u := if little then a + 0x100 * b else 0x100 * a + b;
          Done(if signed && u >= 0x8000 then u - 0x1_0000 else u, s[2..])
      case Integer(w, signed) =>
        (match Varint.Decode(s, w)
         case Done(u, rest) => Done(if !signed then u else if u % 2 == 0 then u / 2 else -1 - u / 2, rest)
         case Throws(rest) => Throws(rest)
         case Faults(rest) => Faults(rest))
      case Float32 => DecodeFixed(s, W32, little)
      case Float64 => DecodeFixed(s, W64, little)
      case Enum(w, signed) =>
        (match Varint.Decode(s, W32)
         case Done(u, rest) =>
           var i := if u % 2 == 0 then u / 2 else -1 - u / 2;
           Done(if signed then ToSigned(i, w) else ToUnsigned(i, w), rest)
         case Throws(rest) => Throws(rest)
         case Faults(rest) => Faults(rest))
  {
    hide Varint.Decode, DecodeZigzag;
    match k
    case Bool => OneByte(s, little);
    case Integer(W8, signed) =>
      OneByte(s, little);
      if s != [] {
        OneTurn(s[0], W8);
      }
    case Integer(W16, signed) => TwoBytesRead(s, little);
    case Integer(w, signed) => ZigzagRead(s, w);
    case Enum(_, _) => ZigzagRead(s, W32);
    case _ =>
  }

  lemma ZigzagRead(s: bytes, w: Width)
    requires Varint.IsVarintWidth(w)
    ensures var d := Varint.Decode(s, w);
      d.Done? ==> DecodeZigzag(d.value, w) == if d.value % 2 == 0 then d.value / 2 else -1 - d.value / 2
  {
    hide Varint.Decode, DecodeZigzag;
    var d := Varint.Decode(s, w);
    if d.Done? {
      DecodeZigzagValue(d.value, w);
    }
  }

  lemma TwoBytesRead(s: bytes, little: bool)
    ensures DecodeFixed(s, W16, little) ==
      if |s| < 2 then Throws(s)
      else
        var a: int, b: int := s[0], s[1];
        Done(if little then a + 0x100 * b else 0x100 * a + b, s[2..])
    ensures forall u: nat :: u < 0x1_0000 ==> ToUnsigned(u, W16) == u
  {
    if |s| >= 2 {
      var bs := s[..2];
      assert bs[1..] == [s[1]] && bs[..1] == [s[0]] && [s[1]][1..] == [] && [s[0]][..0] == [];
      assert FromLittleEndian([s[1]]) == s[1] && FromBigEndian([s[0]]) == s[0];
    }
  }

  /** A string and a pair: the length in front, the members in order. */
  lemma TextExample(s: bytes)
    requires |s| < 128
    ensures WellTyped(Text, Str(s)) && Encode(Text, Str(s), false) == [|s|] + s
  {
  }

  lemma EntryExample(n: int, s: bytes)
    requires IsSigned(n, W32) && |s| < 128
    ensures
      var entry, v := Product(Base(Integer(W32, true)), Product(Text, Unit)), Pair(Num(n), Pair(Str(s), Empty));
      && WellTyped(entry, v)
      && Encode(entry, v, false) == Varint.Encode(if n < 0 then -2 * n - 1 else 2 * n) + [|s|] + s
  {
    var rest, v := Product(Text, Unit), Pair(Str(s), Empty);
    ScalarBytes(Integer(W32, true), n, false);
    TextExample(s);
    assert WellTyped(rest, v) && Encode(rest, v, false) == [|s|] + s + [];
    hide EncodeScalar, EncodeString;
  }

  lemma OneMore(elem: Ty, a: Value, vs: seq<Value>, little: bool)
    requires WellTyped(elem, a) && AllTyped(elem, vs)
    ensures AllTyped(elem, [a] + vs)
    ensures EncodeAll(elem, [a] + vs, little) == Encode(elem, a, little) + EncodeAll(elem, vs, little)
    ensures AllTyped(elem, []) && EncodeAll(elem, [], little) == []
  {
    assert ([a] + vs)[1..] == vs;
    hide Encode, WellTyped;
  }

  /** Two elements of a container: their number in front, and then each in iteration order. */
  lemma ListExample(elem: Ty, a: Value, b: Value, sorted: bool, little: bool)
    requires WellTyped(elem, a) && WellTyped(elem, b)
    requires sorted ==> elem.Product? && KeyLess(elem, true, a, b)
    ensures
      var ty, v := if sorted then Ordered(elem, true, false) else Sequence(elem), Items([a, b]);
      WellTyped(ty, v) && Encode(ty, v, little) == [2] + Encode(elem, a, little) + Encode(elem, b, little)
  {
    OneMore(elem, b, [], little);
    OneMore(elem, a, [b], little);
    hide EncodeAll, AllTyped, KeyLess;
    assert [b] + [] == [b] && [a] + [b] == [a, b];
    assert Varint.Encode(2) == [2];
  }

  /** The `uint16_t` 1 and 258 in a vector. */
  lemma VectorExample()
    ensures
      var ty, v := Sequence(Base(Integer(W16, false))), Items([Num(1), Num(258)]);
      WellTyped(ty, v) && Encode(ty, v, false) == [2, 0, 1, 1, 2] && Encode(ty, v, true) == [2, 1, 0, 2, 1]
  {
    var elem := Base(Integer(W16, false));
    NumberBytes(1);
    NumberBytes(258);
    hide *;
    ListExample(elem, Num(1), Num(258), false, false);
    ListExample(elem, Num(1), Num(258), false, true);
  }

  lemma NumberBytes(n: nat)
    requires n < 0x1_0000
    ensures
      var elem := Base(Integer(W16, false));
      && WellTyped(elem, Num(n)) && Encode(elem, Num(n), false) == [n / 0x100, n % 0x100]
      && Encode(elem, Num(n), true) == [n % 0x100, n / 0x100]
  {
    ScalarBytes(Integer(W16, false), n, false);
    ScalarBytes(Integer(W16, false), n, true);
    hide EncodeScalar;
  }

  /** A map from `int32_t` to `std::string`, with -1 before 64. */
  lemma MapExample()
    ensures
      var entry := Product(Base(Integer(W32, true)), Product(Text, Unit));
      var v := Items([Pair(Num(-1), Pair(Str([]), Empty)), Pair(Num(64), Pair(Str([33]), Empty))]);
      && WellTyped(Ordered(entry, true, false), v)
      && Encode(Ordered(entry, true, false), v, false) == [2, 1, 0, 128, 1, 1, 33]
  {
    var entry := Product(Base(Integer(W32, true)), Product(Text, Unit));
    EntryExample(-1, []);
    EntryExample(64, [33]);
    assert Varint.Encode(128) == [128] + Varint.Encode(1);
    assert KeyLess(entry, true, Pair(Num(-1), Pair(Str([]), Empty)), Pair(Num(64), Pair(Str([33]), Empty)));
    hide Encode, EncodeAll, WellTyped, KeyLess;
    ListExample(entry, Pair(Num(-1), Pair(Str([]), Empty)), Pair(Num(64), Pair(Str([33]), Empty)), true, false);
  }
}
