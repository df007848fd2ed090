/** Machine words: fixed widths, two's complement, byte order and ZigZag. */
module Words {
  import opened Bits
  import opened Bytes

  datatype Width = W8 | W16 | W32 | W64

  function Size(w: Width): nat {
    match w
    case W8 => 1
    case W16 => 2
    case W32 => 4
    case W64 => 8
  }

  /** The number of values a word of this width has. */
  function Modulus(w: Width): nat {
    match w
    case W8 => 0x100
    case W16 => 0x1_0000
    case W32 => 0x1_0000_0000
    case W64 => 0x1_0000_0000_0000_0000
  }

  /** A C++ conversion to the unsigned type of width `w`. */
  function ToUnsigned(v: int, w: Width): (u: nat)
    ensures u < Modulus(w)
  {
    v % Modulus(w)
  }

  /** A C++ conversion to the signed type of width `w`. */
  function ToSigned(v: int, w: Width): (s: int)
    ensures IsSigned(s, w)
  {
    var u := ToUnsigned(v, w);
    if u < Modulus(w) / 2 then u else u - Modulus(w)
  }

  predicate IsSigned(v: int, w: Width) {
    -(Modulus(w) / 2) <= v < Modulus(w) / 2
  }

  predicate IsUnsigned(v: int, w: Width) {
    0 <= v < Modulus(w)
  }

  lemma ModulusIsPow2(w: Width)
    ensures Modulus(w) == Pow2(8 * Size(w))
  {
    hide Pow2;
    WordPowers();
  }

  /** `<<` of an unsigned word. */
  function ShiftLeft(a: nat, i: nat, w: Width): nat {
    ToUnsigned(a * Pow2(i), w)
  }

  // ---- byte order ----

  /** The low `n` bytes of `v`, least significant first: the memory of a word on
      the little-endian host. */
  function LittleEndian(v: nat, n: nat): (bs: bytes)
    ensures |bs| == n
  {
    if n == 0 then [] else [v % 256] + LittleEndian(v / 256, n - 1)
  }

  function FromLittleEndian(bs: bytes): nat {
    if bs == [] then 0 else bs[0] + 256 * FromLittleEndian(bs[1..])
  }

  /** The low `n` bytes of `v`, most significant first. */
  function BigEndian(v: nat, n: nat): (bs: bytes)
    ensures |bs| == n
  {
    if n == 0 then [] else BigEndian(v / 256, n - 1) + [v % 256]
  }

  function FromBigEndian(bs: bytes): nat {
    if bs == [] then 0 else 256 * FromBigEndian(bs[..|bs| - 1]) + bs[|bs| - 1]
  }

  function Pow256(n: nat): (p: nat)
    ensures p > 0
  {
    if n == 0 then 1 else 256 * Pow256(n - 1)
  }

  lemma ModulusIsPow256(w: Width)
    ensures Modulus(w) == Pow256(Size(w))
  {
    assert Pow256(1) == 0x100;
    assert Pow256(2) == 0x1_0000;
    assert Pow256(4) == 0x1_0000_0000;
    assert Pow256(6) == 0x1_0000_0000_0000;
    assert Pow256(8) == 0x1_0000_0000_0000_0000;
  }

  lemma {:induction false} LittleEndianRoundTrip(v: nat, n: nat)
    requires v < Pow256(n)
    ensures FromLittleEndian(LittleEndian(v, n)) == v
  {
    if n == 0 {
    } else {
      LittleEndianRoundTrip(v / 256, n - 1);
      assert LittleEndian(v, n)[1..] == LittleEndian(v / 256, n - 1);
    }
  }

  lemma {:induction false} BigEndianRoundTrip(v: nat, n: nat)
    requires v < Pow256(n)
    ensures FromBigEndian(BigEndian(v, n)) == v
  {
    if n == 0 {
    } else {
      BigEndianRoundTrip(v / 256, n - 1);
      assert BigEndian(v, n)[..n - 1] == BigEndian(v / 256, n - 1);
    }
  }

  /** Byte `i` of a word, counted from the least significant one. */
  lemma {:induction false} LittleEndianAt(v: nat, n: nat, i: nat)
    requires i < n
    ensures LittleEndian(v, n)[i] == v / Pow256(i) % 256
  {
    if i == 0 {
      assert Pow256(0) == 1;
    } else {
      LittleEndianAt(v / 256, n - 1, i - 1);
      DivideTwice(v, 256, Pow256(i - 1));
    }
  }

  /** Byte `i` of a word, counted from the most significant one. */
  lemma {:induction false} BigEndianAt(v: nat, n: nat, i: nat)
    requires i < n
    ensures BigEndian(v, n)[i] == v / Pow256(n - 1 - i) % 256
  {
    if i == n - 1 {
      assert Pow256(0) == 1;
    } else {
      BigEndianAt(v / 256, n - 1, i);
      DivideTwice(v, 256, Pow256(n - 2 - i));
    }
  }

  /** Two divisions are one. */
  lemma DivideTwice(v: nat, d: nat, p: nat)
    requires d > 0 && p > 0
    ensures v / d >= 0 && d * p > 0 && v / d / p == v / (d * p)
  {
    Division(v, d);
    var q: nat := v / d;
    Division(q, p);
    Divided(v, d, p, q / p, q % p, v % d, d * p);
  }

  lemma Division(v: nat, d: nat)
    requires d > 0
    ensures v == d * (v / d) + v % d && 0 <= v % d < d && v / d >= 0
  {
  }

  lemma Divided(v: nat, d: nat, p: nat, a: nat, b: nat, r: nat, w: nat)
    requires v == d * (p * a + b) + r && b < p && r < d && w == d * p
    ensures w > 0 && v / w == a
  {
    OneDivision(d, p, a, b, r);
    Division(v, w);
    SameQuotient(w, v / w, v % w, a, d * b + r);
  }

  lemma OneDivision(d: nat, p: nat, a: nat, b: nat, r: nat)
    requires b < p && r < d
    ensures d * (p * a + b) + r == (d * p) * a + (d * b + r) && d * b + r < d * p
  {
    assert d * (b + 1) <= d * p;
    assert d * (p * a) == (d * p) * a;
  }

  lemma {:induction false} MultiplesApart(d: nat, q: nat, q': nat)
    requires q > q'
    ensures d * q >= d * q' + d
  {
    if q > q' + 1 {
      MultiplesApart(d, q - 1, q');
      assert d * q == d * (q - 1) + d;
    } else {
      assert d * (q' + 1) == d * q' + d;
    }
  }

  lemma SameQuotient(d: nat, q: nat, r: nat, q': nat, r': nat)
    requires r < d && r' < d && d * q + r == d * q' + r'
    ensures q == q' && r == r'
  {
    if q > q' {
      MultiplesApart(d, q, q');
    } else if q < q' {
      MultiplesApart(d, q', q);
    }
  }

  lemma {:induction false} FromBigEndianBound(bs: bytes)
    ensures FromBigEndian(bs) < Pow256(|bs|)
  {
    if bs == [] {
    } else {
      FromBigEndianBound(bs[..|bs| - 1]);
    }
  }

  lemma {:induction false} BigEndianOfBytes(bs: bytes)
    ensures BigEndian(FromBigEndian(bs), |bs|) == bs
  {
    if bs == [] {
    } else {
      BigEndianOfBytes(bs[..|bs| - 1]);
      assert bs == bs[..|bs| - 1] + [bs[|bs| - 1]];
    }
  }

  lemma {:induction false} LittleEndianReversed(v: nat, n: nat)
    ensures Reverse(LittleEndian(v, n)) == BigEndian(v, n)
  {
    if n == 0 {
    } else {
      LittleEndianReversed(v / 256, n - 1);
      assert LittleEndian(v, n)[1..] == LittleEndian(v / 256, n - 1);
    }
  }

  lemma {:induction false} FromLittleEndianReversed(bs: bytes)
    ensures FromLittleEndian(Reverse(bs)) == FromBigEndian(bs)
  {
    if bs == [] {
    } else {
      var last := |bs| - 1;
      FromLittleEndianReversed(bs[..last]);
      assert Reverse(bs) == [bs[last]] + Reverse(bs[..last]);
      assert Reverse(bs)[1..] == Reverse(bs[..last]);
    }
  }

  /** The integral types of one width as `byte_swap` tells them apart: `Signed` ones, `char`
      among them, keep their sign in a wider word, and any bit makes a `bool` true. */
  datatype Kind = Unsigned | Signed | Boolean

  /** The bits of a value of such a type. */
  predicate IsIntegral(v: int, w: Width, kind: Kind) {
    IsUnsigned(v, w) && (kind.Boolean? ==> w == W8 && v <= 1)
  }

  /** `bswap_16`, `bswap_32` and `bswap_64`: the `n` bytes of a word reversed. */
  function SwapBytes(v: nat, n: nat): nat {
    FromLittleEndian(Reverse(LittleEndian(v, n)))
  }

  /** `byte_swap`. A value of width 1 is widened for the 16-bit swap, and converted back
      from its result. */
  function ByteSwap(v: nat, w: Width, kind: Kind := Unsigned): nat
    requires IsIntegral(v, w, kind)
  {
    if w != W8 then SwapBytes(v, Size(w))
    else
      var swapped := SwapBytes(if kind.Signed? && v >= 0x80 then 0xFF00 + v else v, 2);
      if kind.Boolean? then (if swapped == 0 then 0 else 1) else swapped % 0x100
  }

  /** So what comes of a byte is its sign, and not the byte. */
  lemma ByteSwapOfByte(v: nat, kind: Kind)
    requires IsIntegral(v, W8, kind)
    ensures ByteSwap(v, W8, kind) ==
      match kind
      case Unsigned => 0
      case Signed => if v >= 0x80 then 0xFF else 0
      case Boolean => v
  {
    var wide := if kind.Signed? && v >= 0x80 then 0xFF00 + v else v;
    var low, high := wide % 256, wide / 256;
    assert LittleEndian(wide, 2) == [low, high];
    assert Reverse([low, high]) == [high, low];
    assert [high, low][1..] == [low] && FromLittleEndian([low]) == low;
    assert SwapBytes(wide, 2) == high + 256 * low;
  }

  /** Swapping is its own inverse, except on bytes that are not their own sign. */
  lemma ByteSwapInvolution(v: nat, w: Width, kind: Kind)
    requires IsIntegral(v, w, kind)
    ensures IsIntegral(ByteSwap(v, w, kind), w, kind)
    ensures ByteSwap(ByteSwap(v, w, kind), w, kind) == v
      <==> w != W8 || v == 0 || (kind.Signed? && v == 0xFF) || kind.Boolean?
  {
    if w == W8 {
      ByteSwapOfByte(v, kind);
      ByteSwapOfByte(ByteSwap(v, W8, kind), kind);
    } else {
      var n := Size(w);
      ModulusIsPow256(w);
      var bs := LittleEndian(v, n);
      FromLittleEndianReversed(bs);
      FromBigEndianBound(bs);
      LittleEndianReversed(SwapBytes(v, n), n);
      BigEndianOfBytes(bs);
      LittleEndianRoundTrip(v, n);
    }
  }

  /** What `byte_swap` is for: the host's bytes of the swapped word are the
      network's bytes of the word. */
  lemma ByteSwapIsBigEndian(v: nat, w: Width, kind: Kind)
    requires w != W8 && IsIntegral(v, w, kind)
    ensures IsUnsigned(ByteSwap(v, w, kind), w)
    ensures LittleEndian(ByteSwap(v, w, kind), Size(w)) == BigEndian(v, Size(w))
  {
    var n := Size(w);
    var s := ByteSwap(v, w, kind);
    ModulusIsPow256(w);
    ByteSwapInvolution(v, w, kind);
    LittleEndianReversed(v, n);
    FromLittleEndianReversed(LittleEndian(v, n));
    LittleEndianReversed(s, n);
    BigEndianOfBytes(LittleEndian(v, n));
    ReverseReverse(LittleEndian(s, n));
  }

  // ---- ZigZag ----

  /** `EncodeZigzag32`/`EncodeZigzag64`, with the wrap-around of each operation:
      the negation and the doubling are reduced to the word before they are used. */
  function EncodeZigzag(v: int, w: Width): (u: nat)
    requires IsSigned(v, w)
  {
    if v < 0 then ToUnsigned(ToUnsigned(ToUnsigned(ToSigned(-v, w), w) * 2, w) - 1, w)
    else ToUnsigned(ToSigned(v * 2, w), w)
  }

  /** `DecodeZigzag32`/`DecodeZigzag64`; the negation of an unsigned word wraps around. */
  function DecodeZigzag(u: nat, w: Width): (v: int)
    requires IsUnsigned(u, w)
  {
    ToSigned(Xor(u / 2, ToUnsigned(0 - And(u, 1), w)), w)
  }

  /** One turn around the word brings a value within a modulus of it back. */
  lemma OneTurn(v: int, w: Width)
    requires 0 <= v + Modulus(w) < 3 * Modulus(w)
    ensures ToUnsigned(v, w) == if v < 0 then v + Modulus(w) else if v < Modulus(w) then v else v - Modulus(w)
  {
    var m := Modulus(w);
    var turned := if v < 0 then v + m else if v < m then v else v - m;
    var q := if v < 0 then -1 else if v < m then 0 else 1;
    assert v == m * q + turned;
    assert v == m * (v / m) + v % m;
    assert v / m == q;
  }

  lemma EvenModulus(w: Width)
    ensures Modulus(w) == 2 * (Modulus(w) / 2) && Modulus(w) > 2
  {
  }

  lemma EncodeZigzagValue(v: int, w: Width)
    requires IsSigned(v, w)
    ensures EncodeZigzag(v, w) == if v < 0 then -2 * v - 1 else 2 * v
  {
    EvenModulus(w);
    hide ToUnsigned, Modulus;
    if v < 0 {
      OneTurn(-v, w);
      OneTurn(ToSigned(-v, w), w);
      OneTurn(-2 * v, w);
      OneTurn(ToUnsigned(-2 * v, w) - 1, w);
    } else {
      OneTurn(2 * v, w);
      OneTurn(ToSigned(2 * v, w), w);
    }
  }

  lemma DecodeZigzagValue(u: nat, w: Width)
    requires IsUnsigned(u, w)
    ensures DecodeZigzag(u, w) == if u % 2 == 0 then u / 2 else -1 - u / 2
  {
    hide Xor, And, Pow2, ToUnsigned;
    LowBit(u);
    OneTurn(-(u % 2), w);
    ModulusIsPow2(w);
    XorIsChoice(u / 2, 8 * Size(w));
    OneTurn(u / 2, w);
    OneTurn(Modulus(w) - 1 - u / 2, w);
  }

  /** ZigZag is a bijection between the signed and the unsigned words. */
  lemma ZigzagBijection(v: int, u: nat, w: Width)
    requires IsSigned(v, w) && IsUnsigned(u, w)
    ensures IsUnsigned(EncodeZigzag(v, w), w) && IsSigned(DecodeZigzag(u, w), w)
    ensures DecodeZigzag(EncodeZigzag(v, w), w) == v
    ensures EncodeZigzag(DecodeZigzag(u, w), w) == u
  {
    EncodeZigzagValue(v, w);
    DecodeZigzagValue(EncodeZigzag(v, w), w);
    DecodeZigzagValue(u, w);
    EncodeZigzagValue(DecodeZigzag(u, w), w);
  }
}
