/** The format of `Serializer`: the types it dispatches on, their values, and what
    `<<` writes and `>>` reads for them. */
module Codec {
  import opened Bytes
  import opened Words
  import opened Wire
  import Varint

  /** The scalar cases of the dispatch. `Integer` covers `char`, the `intN_t` and the
      `uintN_t`; `Float32` and `Float64` are bit patterns; `Enum` has the width and the
      sign of its underlying type. */
  datatype Scalar =
    | Bool
    | Integer(width: Width, signed: bool)
    | Float32
    | Float64
    | Enum(width: Width, signed: bool)

  /** A tuple, a pair or an aggregate of n members is n nested `Product`s ended by
      `Unit`. `Sequence` is `list` and `vector`; `Ordered` is `set` and, with `byFirst`,
      `map`, and their `multi` forms. */
  datatype Ty =
    | Base(scalar: Scalar)
    | Text
    | Unit
    | Product(first: Ty, rest: Ty)
    | Sequence(elem: Ty)
    | Ordered(elem: Ty, byFirst: bool, multi: bool)

  datatype Value =
    | Num(n: int)
    | Str(s: bytes)
    | Empty
    | Pair(first: Value, rest: Value)
    | Items(vs: seq<Value>)

  // ---- scalars ----

  predicate InRange(k: Scalar, n: int) {
    match k
    case Bool => n == 0 || n == 1
    case Integer(w, signed) => if signed then IsSigned(n, w) else IsUnsigned(n, w)
    case Float32 => IsUnsigned(n, W32)
    case Float64 => IsUnsigned(n, W64)
    case Enum(w, signed) => if signed then IsSigned(n, w) else IsUnsigned(n, w)
  }

  /** A C++ conversion to an integer type. */
  function Convert(n: int, w: Width, signed: bool): int {
    if signed then ToSigned(n, w) else ToUnsigned(n, w)
  }

  /** Words of one and two bytes are fixed, wider ones are varints, signed ones after
      ZigZag. */
  function EncodeInteger(n: int, w: Width, signed: bool, little: bool): bytes
    requires if signed then IsSigned(n, w) else IsUnsigned(n, w)
  {
    match w
    case W8 => [ToUnsigned(n, W8)]
    case W16 => EncodeFixed(ToUnsigned(n, W16), W16, little)
    case _ => Varint.Encode(if signed then EncodeZigzag(n, w) else n)
  }

  function DecodeInteger(s: bytes, w: Width, signed: bool, little: bool): Parsed<int> {
    if w == W8 || w == W16 then
      var (u, rest) :- DecodeFixed(s, w, little);
      Done(Convert(u, w, signed), rest)
    else
      var (u, rest) :- Varint.Decode(s, w);
      Done(if signed then DecodeZigzag(u, w) else u, rest)
  }

  function EncodeScalar(k: Scalar, n: int, little: bool): bytes
    requires InRange(k, n)
  {
    match k
    case Bool => [n]
    case Integer(w, signed) => EncodeInteger(n, w, signed, little)
    case Float32 => EncodeFixed(n, W32, little)
    case Float64 => EncodeFixed(n, W64, little)
    case Enum(_, _) => EncodeInteger(ToSigned(n, W32), W32, true, little)
  }

  function DecodeScalar(k: Scalar, s: bytes, little: bool): Parsed<int> {
    match k
    case Bool =>
      var (u, rest) :- DecodeFixed(s, W8, little);
      Done(if u == 0 then 0 else 1, rest)
    case Integer(w, signed) => DecodeInteger(s, w, signed, little)
    case Float32 => DecodeFixed(s, W32, little)
    case Float64 => DecodeFixed(s, W64, little)
    case Enum(w, signed) =>
      var (n, rest) :- DecodeInteger(s, W32, true, little);
      Done(Convert(n, w, signed), rest)
  }

  /** An enumerator survives the detour through `int32_t`. */
  predicate EnumFits(k: Scalar, n: int) {
    k.Enum? ==> Convert(ToSigned(n, W32), k.width, k.signed) == n
  }

  lemma ConvertBack(n: int, w: Width, signed: bool)
    requires if signed then IsSigned(n, w) else IsUnsigned(n, w)
    ensures Convert(ToUnsigned(n, w), w, signed) == n
  {
    OneTurn(n, w);
    OneTurn(ToUnsigned(n, w), w);
  }

  lemma OneByte(s: bytes, little: bool)
    ensures DecodeFixed(s, W8, little) == if s == [] then Throws(s) else Done(s[0], s[1..])
  {
    if s != [] {
      assert FromBigEndian(s[..1]) == 256 * FromBigEndian(s[..1][..0]) + s[0];
      assert FromLittleEndian(s[..1]) == s[0] + 256 * FromLittleEndian(s[..1][1..]);
    }
  }

  lemma ByteRoundTrip(b: byte, rest: bytes, little: bool)
    ensures DecodeFixed([b] + rest, W8, little) == Done(b, rest)
  {
    OneByte([b] + rest, little);
    assert ([b] + rest)[1..] == rest;
  }

  lemma IntegerRoundTrip(n: int, w: Width, signed: bool, rest: bytes, little: bool)
    requires if signed then IsSigned(n, w) else IsUnsigned(n, w)
    ensures DecodeInteger(EncodeInteger(n, w, signed, little) + rest, w, signed, little) == Done(n, rest)
  {
    ConvertBack(n, w, signed);
    match w
    case W8 => ByteRoundTrip(ToUnsigned(n, W8), rest, little);
    case W16 => FixedRoundTrip(ToUnsigned(n, W16), W16, little, rest);
    case _ =>
      if signed {
        ZigzagBijection(n, EncodeZigzag(n, w), w);
        Varint.RoundTrip(EncodeZigzag(n, w), w, rest);
      } else {
        Varint.RoundTrip(n, w, rest);
      }
  }

  /** A scalar comes back, an enumerator as what is left of it in 32 bits. */
  lemma ScalarRoundTrip(k: Scalar, n: int, rest: bytes, little: bool)
    requires InRange(k, n)
    ensures DecodeScalar(k, EncodeScalar(k, n, little) + rest, little) ==
      Done(if k.Enum? then Convert(ToSigned(n, W32), k.width, k.signed) else n, rest)
    ensures |EncodeScalar(k, n, little)| > 0
  {
    match k
    case Bool => ByteRoundTrip(n, rest, little);
    case Integer(w, signed) => IntegerRoundTrip(n, w, signed, rest, little);
    case Float32 => FixedRoundTrip(n, W32, little, rest);
    case Float64 => FixedRoundTrip(n, W64, little, rest);
    case Enum(_, _) => IntegerRoundTrip(ToSigned(n, W32), W32, true, rest, little);
  }

  /** Every enumerator of at most 32 bits fits; a 64-bit one fits exactly when its low
      32 bits, sign-extended, are all of it. */
  lemma EnumFitsExactly(w: Width, signed: bool, n: int)
    requires InRange(Enum(w, signed), n)
    ensures EnumFits(Enum(w, signed), n) <==>
      w != W64 || IsSigned(n, W32) || (!signed && n >= Modulus(W64) - Modulus(W32) / 2)
  {
    hide ToUnsigned;
    var i := ToSigned(n, W32);
    if w == W64 {
      LowWord(n);
    } else {
      OneTurn(n, W32);
    }
    OneTurn(i, w);
  }

  /** The low 32 bits, sign-extended, differ from the whole by a multiple of 2^32. */
  lemma LowWord(n: int)
    ensures IsSigned(ToSigned(n, W32), W32) && (n - ToSigned(n, W32)) % Modulus(W32) == 0
  {
    var m := Modulus(W32);
    assert n == m * (n / m) + n % m;
    assert n - ToSigned(n, W32) == m * (n / m) || n - ToSigned(n, W32) == m * (n / m) + m;
  }

  lemma IntegerLocal(s: bytes, w: Width, signed: bool, little: bool, more: bytes)
    requires DecodeInteger(s, w, signed, little).Done?
    ensures var d := DecodeInteger(s, w, signed, little);
      DecodeInteger(s + more, w, signed, little) == Done(d.value, d.rest + more)
  {
    if w == W8 || w == W16 {
      FixedLocal(s, w, little, more);
    } else {
      Varint.Local(s, w, more);
    }
  }

  lemma ScalarLocal(k: Scalar, s: bytes, little: bool, more: bytes)
    requires DecodeScalar(k, s, little).Done?
    ensures var d := DecodeScalar(k, s, little);
      DecodeScalar(k, s + more, little) == Done(d.value, d.rest + more)
  {
    match k
    case Bool => FixedLocal(s, W8, little, more);
    case Integer(w, signed) => IntegerLocal(s, w, signed, little, more);
    case Float32 => FixedLocal(s, W32, little, more);
    case Float64 => FixedLocal(s, W64, little, more);
    case Enum(_, _) => IntegerLocal(s, W32, true, little, more);
  }

  // ---- the order of the sorted containers ----

  /** What `<=>` says. A NaN makes whatever holds it unordered. */
  datatype Order = Below | Same | Above | Unordered {
    function Flip(): Order {
      match this
      case Below => Above
      case Above => Below
      case _ => this
    }
  }

  function CompareInts(a: int, b: int): Order {
    if a < b then Below else if a == b then Same else Above
  }

  /** IEEE 754 comparison of bit patterns. */
  function CompareFloats(a: nat, b: nat, w: Width): Order {
    var half := Modulus(w) / 2;
    var infinity := if w == W32 then 0x7F80_0000 else 0x7FF0_0000_0000_0000;
    if a % half > infinity || b % half > infinity then Unordered
    else CompareInts(if a < half then a else half - a, if b < half then b else half - b)
  }

  function CompareTexts(a: bytes, b: bytes): Order {
    if a == [] || b == [] then CompareInts(|a|, |b|)
    else if a[0] != b[0] then CompareInts(a[0], b[0])
    else CompareTexts(a[1..], b[1..])
  }

  /** The three-way comparison of the C++20 types: lexicographic on tuples, pairs and
      containers, the first component that is not the same deciding. */
  function Compare(ty: Ty, a: Value, b: Value): Order
    decreases ty, 0
  {
    match (ty, a, b)
    case (Base(k), Num(x), Num(y)) =>
      if !k.Float32? && !k.Float64? then CompareInts(x, y)
      else if x < 0 || y < 0 then Unordered
      else CompareFloats(x, y, if k.Float32? then W32 else W64)
    case (Text, Str(x), Str(y)) => CompareTexts(x, y)
    case (Unit, Empty, Empty) => Same
    case (Product(t, u), Pair(x, x'), Pair(y, y')) =>
      if Compare(t, x, y) != Same then Compare(t, x, y) else Compare(u, x', y')
    case (Sequence(t), Items(xs), Items(ys)) => CompareAll(t, xs, ys)
    case (Ordered(t, _, _), Items(xs), Items(ys)) => CompareAll(t, xs, ys)
    case _ => Unordered
  }

  function CompareAll(ty: Ty, xs: seq<Value>, ys: seq<Value>): Order
    decreases ty, 1, |xs|
  {
    if xs == [] || ys == [] then CompareInts(|xs|, |ys|)
    else if Compare(ty, xs[0], ys[0]) != Same then Compare(ty, xs[0], ys[0])
    else CompareAll(ty, xs[1..], ys[1..])
  }

  lemma {:induction false} TextsFlip(a: bytes, b: bytes)
    ensures CompareTexts(b, a) == CompareTexts(a, b).Flip()
  {
    if a != [] && b != [] {
      TextsFlip(a[1..], b[1..]);
    }
  }

  /** Comparing the other way round gives the opposite answer. */
  lemma {:induction false} CompareFlips(ty: Ty, a: Value, b: Value)
    ensures Compare(ty, b, a) == Compare(ty, a, b).Flip()
    decreases ty, 0
  {
    match (ty, a, b)
    case (Text, Str(x), Str(y)) => TextsFlip(x, y);
    case (Product(t, u), Pair(x, x'), Pair(y, y')) =>
      CompareFlips(t, x, y);
      CompareFlips(u, x', y');
    case (Sequence(t), Items(xs), Items(ys)) => CompareAllFlips(t, xs, ys);
    case (Ordered(t, _, _), Items(xs), Items(ys)) => CompareAllFlips(t, xs, ys);
    case _ =>
  }

  lemma {:induction false} CompareAllFlips(ty: Ty, xs: seq<Value>, ys: seq<Value>)
    ensures CompareAll(ty, ys, xs) == CompareAll(ty, xs, ys).Flip()
    decreases ty, 1, |xs|
  {
    if xs != [] && ys != [] {
      CompareFlips(ty, xs[0], ys[0]);
      CompareAllFlips(ty, xs[1..], ys[1..]);
    }
  }

  /** `operator<` of the C++ types. */
  predicate Less(ty: Ty, a: Value, b: Value) {
    Compare(ty, a, b) == Below
  }

  /** Elements of a set compare whole, entries of a map by their key. */
  predicate KeyLess(elem: Ty, byFirst: bool, a: Value, b: Value) {
    if byFirst && elem.Product? then a.Pair? && b.Pair? && Less(elem.first, a.first, b.first)
    else Less(elem, a, b)
  }

  lemma KeyAsymmetric(elem: Ty, byFirst: bool, a: Value, b: Value)
    requires KeyLess(elem, byFirst, a, b)
    ensures !KeyLess(elem, byFirst, b, a)
  {
    if byFirst && elem.Product? {
      CompareFlips(elem.first, a.first, b.first);
    } else {
      CompareFlips(elem, a, b);
    }
  }

  /** `a` may stand before `b` in iteration order: strictly less, or, in the `multi`
      containers, not greater. */
  predicate Before(ty: Ty, a: Value, b: Value)
    requires ty.Ordered?
  {
    if ty.multi then !KeyLess(ty.elem, ty.byFirst, b, a) else KeyLess(ty.elem, ty.byFirst, a, b)
  }

  /** The number of elements `e` has to be placed after. */
  function UpperBound(ty: Ty, c: seq<Value>, e: Value): (i: nat)
    requires ty.Ordered?
    ensures i <= |c|
  {
    if c == [] || KeyLess(ty.elem, ty.byFirst, e, c[0]) then 0 else 1 + UpperBound(ty, c[1..], e)
  }

  /** `emplace`: nothing happens if an equivalent key is there and the container is not
      a `multi` one. */
  function Emplace(ty: Ty, c: seq<Value>, e: Value): seq<Value>
    requires ty.Ordered?
  {
    var i := UpperBound(ty, c, e);
    if !ty.multi && i > 0 && !KeyLess(ty.elem, ty.byFirst, c[i - 1], e) then c
    else c[..i] + [e] + c[i..]
  }

  predicate IsContainer(ty: Ty) {
    ty.Sequence? || ty.Ordered?
  }

  /** One element read into a container: `emplace_back` or `emplace`. */
  function Add(ty: Ty, c: seq<Value>, e: Value): seq<Value>
    requires IsContainer(ty)
  {
    if ty.Sequence? then c + [e] else Emplace(ty, c, e)
  }

  /** The contents of a container are in its iteration order. */
  predicate InOrder(ty: Ty, c: seq<Value>)
    requires IsContainer(ty)
  {
    ty.Ordered? ==> forall i, j :: 0 <= i < j < |c| ==> Before(ty, c[i], c[j])
  }

  lemma {:induction false} UpperBoundIsEnd(ty: Ty, c: seq<Value>, e: Value)
    requires ty.Ordered? && forall i :: 0 <= i < |c| ==> Before(ty, c[i], e)
    ensures UpperBound(ty, c, e) == |c|
  {
    if c != [] {
      assert Before(ty, c[0], e);
      if !ty.multi {
        KeyAsymmetric(ty.elem, ty.byFirst, c[0], e);
      }
      UpperBoundIsEnd(ty, c[1..], e);
    }
  }

  /** Adding the next element in iteration order appends it. */
  lemma AddInOrder(ty: Ty, c: seq<Value>, e: Value)
    requires IsContainer(ty) && InOrder(ty, c + [e])
    ensures Add(ty, c, e) == c + [e]
  {
    if ty.Ordered? {
      forall i | 0 <= i < |c|
        ensures Before(ty, c[i], e)
      {
        assert (c + [e])[i] == c[i] && (c + [e])[|c|] == e;
      }
      UpperBoundIsEnd(ty, c, e);
    }
  }

  // ---- composite values ----

  predicate WellTyped(ty: Ty, v: Value)
    decreases ty, 0
  {
    match ty
    case Base(k) => v.Num? && InRange(k, v.n)
    case Text => v.Str? && |v.s| < Modulus(W64)
    case Unit => v.Empty?
    case Product(t, u) => v.Pair? && WellTyped(t, v.first) && WellTyped(u, v.rest)
    case Sequence(t) => v.Items? && |v.vs| < Modulus(W64) && AllTyped(t, v.vs)
    case Ordered(t, byFirst, _) =>
      && v.Items? && |v.vs| < Modulus(W64) && AllTyped(t, v.vs)
      && (byFirst ==> t.Product?) && InOrder(ty, v.vs)
  }

  predicate AllTyped(ty: Ty, vs: seq<Value>)
    decreases ty, 1, |vs|
  {
    vs == [] || (WellTyped(ty, vs[0]) && AllTyped(ty, vs[1..]))
  }

  /** What `<<` writes for a value of type `ty`. */
  function Encode(ty: Ty, v: Value, little: bool): bytes
    requires WellTyped(ty, v)
    decreases ty, 0
  {
    match ty
    case Base(k) => EncodeScalar(k, v.n, little)
    case Text => EncodeString(v.s)
    case Unit => []
    case Product(t, u) => Encode(t, v.first, little) + Encode(u, v.rest, little)
    case Sequence(t) => Varint.Encode(|v.vs|) + EncodeAll(t, v.vs, little)
    case Ordered(t, _, _) => Varint.Encode(|v.vs|) + EncodeAll(t, v.vs, little)
  }

  function EncodeAll(ty: Ty, vs: seq<Value>, little: bool): bytes
    requires AllTyped(ty, vs)
    decreases ty, 1, |vs|
  {
    if vs == [] then [] else Encode(ty, vs[0], little) + EncodeAll(ty, vs[1..], little)
  }

  /** Element `i` and those before it, one after the other. */
  lemma {:induction false} EncodeNext(ty: Ty, vs: seq<Value>, i: nat, little: bool)
    requires i < |vs| && AllTyped(ty, vs)
    ensures WellTyped(ty, vs[i]) && AllTyped(ty, vs[..i]) && AllTyped(ty, vs[..i + 1])
    ensures EncodeAll(ty, vs[..i + 1], little) == EncodeAll(ty, vs[..i], little) + Encode(ty, vs[i], little)
  {
    hide Encode, WellTyped;
    if i == 0 {
      assert vs[..1] == [vs[0]];
      assert EncodeAll(ty, [vs[0]], little) == Encode(ty, vs[0], little) + EncodeAll(ty, [], little);
    } else {
      EncodeNext(ty, vs[1..], i - 1, little);
      assert vs[..i + 1][1..] == vs[1..][..i] && vs[..i][1..] == vs[1..][..i - 1];
      assert EncodeAll(ty, vs[..i], little) == Encode(ty, vs[0], little) + EncodeAll(ty, vs[1..][..i - 1], little);
      assert EncodeAll(ty, vs[..i + 1], little) == Encode(ty, vs[0], little) + EncodeAll(ty, vs[1..][..i], little);
    }
  }

  /** What `>>` makes of the bytes `s` for a fresh target of type `ty`. */
  function Decode(ty: Ty, s: bytes, little: bool, tight: bool): Parsed<Value>
    decreases ty, 1
  {
    match ty
    case Base(k) =>
      var (n, rest) :- DecodeScalar(k, s, little);
      Done(Num(n), rest)
    case Text =>
      var (t, rest) :- DecodeString(s, tight);
      Done(Str(t), rest)
    case Unit => Done(Empty, s)
    case Product(t, u) =>
      var (a, rest) :- Decode(t, s, little, tight);
      var (b, rest') :- Decode(u, rest, little, tight);
      Done(Pair(a, b), rest')
    case _ =>
      var (n, rest) :- Varint.Decode(s, W64);
      DecodeInto(ty, n, [], rest, little, tight)
  }

  /** `n` elements read into a container that holds `c`. */
  function DecodeInto(ty: Ty, n: nat, c: seq<Value>, s: bytes, little: bool, tight: bool): Parsed<Value>
    requires IsContainer(ty)
    decreases ty, 0, n
  {
    if n == 0 then Done(Items(c), s)
    else
      var (v, rest) :- Decode(ty.elem, s, little, tight);
      DecodeInto(ty, n - 1, Add(ty, c, v), rest, little, tight)
  }

  // ---- the laws ----

  /** Types whose values take no bytes: the empty tuple and products of such. */
  predicate Blank(ty: Ty) {
    ty.Unit? || (ty.Product? && Blank(ty.first) && Blank(ty.rest))
  }

  /** Reading the value ends with reading an empty string. */
  predicate EmptyTail(ty: Ty, v: Value) {
    match (ty, v)
    case (Text, Str(s)) => s == []
    case (Product(t, u), Pair(a, b)) => EmptyTail(u, b) || (Blank(u) && EmptyTail(t, a))
    case (Sequence(t), Items(vs)) => vs != [] && EmptyTail(t, vs[|vs| - 1])
    case (Ordered(t, _, _), Items(vs)) => vs != [] && EmptyTail(t, vs[|vs| - 1])
    case _ => false
  }

  /** Every enumerator in the value survives 32 bits. */
  predicate EnumsFit(ty: Ty, v: Value)
    decreases ty, 0
  {
    match (ty, v)
    case (Base(k), Num(n)) => EnumFits(k, n)
    case (Product(t, u), Pair(a, b)) => EnumsFit(t, a) && EnumsFit(u, b)
    case (Sequence(t), Items(vs)) => AllEnumsFit(t, vs)
    case (Ordered(t, _, _), Items(vs)) => AllEnumsFit(t, vs)
    case _ => true
  }

  predicate AllEnumsFit(ty: Ty, vs: seq<Value>)
    decreases ty, 1, |vs|
  {
    vs == [] || (EnumsFit(ty, vs[0]) && AllEnumsFit(ty, vs[1..]))
  }

  lemma {:induction false} BlankTakesNothing(ty: Ty, v: Value, little: bool)
    requires WellTyped(ty, v)
    ensures Blank(ty) <==> Encode(ty, v, little) == []
    ensures Blank(ty) ==> !EmptyTail(ty, v)
  {
    match ty
    case Base(k) => ScalarRoundTrip(k, v.n, [], little);
    case Product(t, u) =>
      BlankTakesNothing(t, v.first, little);
      BlankTakesNothing(u, v.rest, little);
    case _ =>
  }

  /** The read of `v` with `rest` behind it runs into the null chunk pointer. */
  predicate Crashes(ty: Ty, v: Value, rest: bytes, tight: bool) {
    tight && rest == [] && EmptyTail(ty, v)
  }

  /** What is left of a value after the detour of its enumerators through 32 bits: they
      are cut, and the containers are built again from what is left of their elements. */
  function Narrowed(ty: Ty, v: Value): Value
    decreases ty, 0
  {
    match (ty, v)
    case (Base(Enum(w, signed)), Num(n)) => Num(Convert(ToSigned(n, W32), w, signed))
    case (Product(t, u), Pair(a, b)) => Pair(Narrowed(t, a), Narrowed(u, b))
    case (Sequence(_), Items(vs)) => Items(NarrowedInto(ty, [], vs))
    case (Ordered(_, _, _), Items(vs)) => Items(NarrowedInto(ty, [], vs))
    case _ => v
  }

  /** The elements `vs`, narrowed, added one by one to a container that holds `c`. */
  function NarrowedInto(ty: Ty, c: seq<Value>, vs: seq<Value>): seq<Value>
    requires IsContainer(ty)
    decreases ty.elem, 1, |vs|
  {
    if vs == [] then c else NarrowedInto(ty, Add(ty, c, Narrowed(ty.elem, vs[0])), vs[1..])
  }

  /** The outcome `d` of reading the encoding of `v` with `rest` behind it. */
  predicate Returns(ty: Ty, v: Value, rest: bytes, tight: bool, d: Parsed<Value>) {
    d == if Crashes(ty, v, rest, tight) then Faults([]) else Done(Narrowed(ty, v), rest)
  }

  /** The same for elements read into a container that holds `c`. */
  predicate ReturnsAll(ty: Ty, c: seq<Value>, vs: seq<Value>, rest: bytes, tight: bool, d: Parsed<Value>)
    requires IsContainer(ty)
  {
    d ==
    if vs != [] && Crashes(ty.elem, vs[|vs| - 1], rest, tight) then Faults([])
    else Done(Items(NarrowedInto(ty, c, vs)), rest)
  }

  /** Reading an encoding consumes exactly it, whatever follows, and gives what is left of
      the value; or it crashes. */
  lemma {:induction false} Consumes(ty: Ty, v: Value, rest: bytes, little: bool, tight: bool)
    requires WellTyped(ty, v)
    ensures Returns(ty, v, rest, tight, Decode(ty, Encode(ty, v, little) + rest, little, tight))
    decreases ty, 1
  {
    match ty
    case Base(k) =>
      ScalarRoundTrip(k, v.n, rest, little);
    case Text =>
      StringRoundTrip(v.s, rest, tight);
    case Unit =>
      assert Encode(ty, v, little) + rest == rest;
    case Product(t, u) =>
      var b := Encode(u, v.rest, little);
      Consumes(t, v.first, b + rest, little, tight);
      Consumes(u, v.rest, rest, little, tight);
      ConsumesProduct(ty, v, rest, little, tight);
    case _ =>
      ConsumesAll(ty, [], v.vs, rest, little, tight);
      ConsumesContainer(ty, v, rest, little, tight);
  }

  lemma ConsumesProduct(ty: Ty, v: Value, rest: bytes, little: bool, tight: bool)
    requires ty.Product? && WellTyped(ty, v)
    requires
      var a, b := Encode(ty.first, v.first, little), Encode(ty.rest, v.rest, little);
      && Returns(ty.first, v.first, b + rest, tight, Decode(ty.first, a + (b + rest), little, tight))
      && Returns(ty.rest, v.rest, rest, tight, Decode(ty.rest, b + rest, little, tight))
    ensures Returns(ty, v, rest, tight, Decode(ty, Encode(ty, v, little) + rest, little, tight))
  {
    var a, b := Encode(ty.first, v.first, little), Encode(ty.rest, v.rest, little);
    assert Encode(ty, v, little) + rest == a + (b + rest);
    BlankTakesNothing(ty.rest, v.rest, little);
  }

  lemma ConsumesContainer(ty: Ty, v: Value, rest: bytes, little: bool, tight: bool)
    requires IsContainer(ty) && WellTyped(ty, v)
    requires ReturnsAll(ty, [], v.vs, rest, tight,
      DecodeInto(ty, |v.vs|, [], EncodeAll(ty.elem, v.vs, little) + rest, little, tight))
    ensures Returns(ty, v, rest, tight, Decode(ty, Encode(ty, v, little) + rest, little, tight))
  {
    hide Varint.Encode, Varint.Decode, Encode, EncodeAll, DecodeInto;
    var body := EncodeAll(ty.elem, v.vs, little);
    ContainerBytes(ty, v, rest, little);
    Varint.RoundTrip(|v.vs|, W64, body + rest);
  }

  lemma ContainerBytes(ty: Ty, v: Value, rest: bytes, little: bool)
    requires IsContainer(ty) && WellTyped(ty, v)
    ensures |v.vs| < Modulus(W64)
    ensures Encode(ty, v, little) + rest == Varint.Encode(|v.vs|) + (EncodeAll(ty.elem, v.vs, little) + rest)
  {
    hide Varint.Encode, EncodeAll;
  }

  /** Reading into a container that already holds `c` adds what is left of the elements. */
  lemma {:induction false} ConsumesAll(ty: Ty, c: seq<Value>, vs: seq<Value>, rest: bytes, little: bool, tight: bool)
    requires IsContainer(ty) && AllTyped(ty.elem, vs)
    ensures ReturnsAll(ty, c, vs, rest, tight,
      DecodeInto(ty, |vs|, c, EncodeAll(ty.elem, vs, little) + rest, little, tight))
    decreases ty, 0, |vs|
  {
    hide Encode, Decode, Add, Narrowed;
    var s := EncodeAll(ty.elem, vs, little) + rest;
    if vs == [] {
      assert s == rest;
    } else {
      var tail := EncodeAll(ty.elem, vs[1..], little);
      assert s == Encode(ty.elem, vs[0], little) + (tail + rest);
      Consumes(ty.elem, vs[0], tail + rest, little, tight);
      if |vs| > 1 {
        OnlyTheLastEndsIt(ty.elem, vs, rest, little, tight);
      }
      var d := Decode(ty.elem, s, little, tight);
      if d.Done? {
        ConsumesAll(ty, Add(ty, c, d.value), vs[1..], rest, little, tight);
      }
    }
  }

  /** An element that is not the last cannot stand at the end of the data. */
  lemma OnlyTheLastEndsIt(elem: Ty, vs: seq<Value>, rest: bytes, little: bool, tight: bool)
    requires |vs| > 1 && AllTyped(elem, vs)
    ensures !Crashes(elem, vs[0], EncodeAll(elem, vs[1..], little) + rest, tight)
  {
    BlankTakesNothing(elem, vs[0], little);
    BlankTakesNothing(elem, vs[1..][0], little);
  }

  lemma AddedInOrder(ty: Ty, c: seq<Value>, vs: seq<Value>, v: Value)
    requires IsContainer(ty) && vs != [] && InOrder(ty, c + vs) && v == vs[0]
    ensures Add(ty, c, v) + vs[1..] == c + vs
  {
    assert (c + [v]) + vs[1..] == c + vs;
    PrefixInOrder(ty, c + [v], vs[1..], c + vs);
    AddInOrder(ty, c, v);
  }

  lemma PrefixInOrder(ty: Ty, c: seq<Value>, more: seq<Value>, all: seq<Value>)
    requires IsContainer(ty) && all == c + more && InOrder(ty, all)
    ensures InOrder(ty, c)
  {
    assert forall i :: 0 <= i < |c| ==> all[i] == c[i];
  }

  /** A value whose enumerators fit keeps all of itself. */
  lemma {:induction false} FittingStays(ty: Ty, v: Value)
    requires WellTyped(ty, v) && EnumsFit(ty, v)
    ensures Narrowed(ty, v) == v
    decreases ty, 0
  {
    match ty
    case Product(t, u) =>
      FittingStays(t, v.first);
      FittingStays(u, v.rest);
    case Sequence(_) =>
      assert [] + v.vs == v.vs;
      FittingStaysInto(ty, [], v.vs);
    case Ordered(_, _, _) =>
      assert [] + v.vs == v.vs;
      FittingStaysInto(ty, [], v.vs);
    case _ =>
  }

  lemma {:induction false} FittingStaysInto(ty: Ty, c: seq<Value>, vs: seq<Value>)
    requires IsContainer(ty) && AllTyped(ty.elem, vs) && AllEnumsFit(ty.elem, vs) && InOrder(ty, c + vs)
    ensures NarrowedInto(ty, c, vs) == c + vs
    decreases ty.elem, 1, |vs|
  {
    if vs == [] {
      assert c + vs == c;
    } else {
      FittingStays(ty.elem, vs[0]);
      AddedInOrder(ty, c, vs, vs[0]);
      FittingStaysInto(ty, Add(ty, c, vs[0]), vs[1..]);
    }
  }

  // ---- the round trip, exactly ----

  lemma ConvertedFits(n: int, w: Width, signed: bool)
    requires IsSigned(n, W32)
    ensures EnumFits(Enum(w, signed), Convert(n, w, signed))
  {
    var c := Convert(n, w, signed);
    match w
    case W8 => OneTurn(c, W32); OneTurn(ToSigned(c, W32), w);
    case W16 => OneTurn(c, W32); OneTurn(ToSigned(c, W32), w);
    case W32 => OneTurn(c, W32); OneTurn(ToSigned(c, W32), w);
    case W64 =>
      OneTurn(n, w);
      if c < 0 || c < Modulus(W32) {
        OneTurn(c, W32);
      } else {
        Varint.WholeTurns(c % Modulus(W32), c / Modulus(W32), W32);
        assert c == Modulus(W64) + n;
        assert ToSigned(c, W32) == n;
      }
      OneTurn(ToSigned(c, W32), w);
  }

  lemma {:induction false} AllFitJoin(ty: Ty, a: seq<Value>, b: seq<Value>)
    ensures AllEnumsFit(ty, a + b) <==> AllEnumsFit(ty, a) && AllEnumsFit(ty, b)
  {
    if a == [] {
      assert a + b == b;
    } else {
      AllFitJoin(ty, a[1..], b);
      assert (a + b)[1..] == a[1..] + b;
    }
  }

  lemma AddedFit(ty: Ty, c: seq<Value>, e: Value)
    requires IsContainer(ty) && AllEnumsFit(ty.elem, c) && EnumsFit(ty.elem, e)
    ensures AllEnumsFit(ty.elem, Add(ty, c, e))
  {
    assert AllEnumsFit(ty.elem, [e]);
    if ty.Sequence? {
      AllFitJoin(ty.elem, c, [e]);
    } else {
      var i := UpperBound(ty, c, e);
      assert c == c[..i] + c[i..];
      AllFitJoin(ty.elem, c[..i], c[i..]);
      AllFitJoin(ty.elem, c[..i], [e]);
      AllFitJoin(ty.elem, c[..i] + [e], c[i..]);
    }
  }

  /** A value that has been read has only enumerators of 32 bits. */
  lemma {:induction false} DecodedFits(ty: Ty, s: bytes, little: bool, tight: bool)
    ensures var d := Decode(ty, s, little, tight); d.Done? ==> EnumsFit(ty, d.value)
    decreases ty, 1
  {
    match ty
    case Base(k) =>
      if k.Enum? && DecodeInteger(s, W32, true, little).Done? {
        ConvertedFits(DecodeInteger(s, W32, true, little).value, k.width, k.signed);
      }
    case Text =>
    case Unit =>
    case Product(t, u) =>
      DecodedFits(t, s, little, tight);
      var d := Decode(t, s, little, tight);
      if d.Done? {
        DecodedFits(u, d.rest, little, tight);
      }
    case _ =>
      var d := Varint.Decode(s, W64);
      if d.Done? {
        DecodedIntoFits(ty, d.value, [], d.rest, little, tight);
      }
  }

  lemma {:induction false} DecodedIntoFits(ty: Ty, n: nat, c: seq<Value>, s: bytes, little: bool, tight: bool)
    requires IsContainer(ty) && AllEnumsFit(ty.elem, c)
    ensures var d := DecodeInto(ty, n, c, s, little, tight); d.Done? ==> EnumsFit(ty, d.value)
    decreases ty, 0, n
  {
    if n > 0 {
      DecodedFits(ty.elem, s, little, tight);
      var d := Decode(ty.elem, s, little, tight);
      if d.Done? {
        AddedFit(ty, c, d.value);
        DecodedIntoFits(ty, n - 1, Add(ty, c, d.value), d.rest, little, tight);
      }
    }
  }

  /** Nothing is lost if and only if every enumerator survives 32 bits. */
  lemma NarrowedExactly(ty: Ty, v: Value)
    requires WellTyped(ty, v)
    ensures Narrowed(ty, v) == v <==> EnumsFit(ty, v)
  {
    hide *;
    NarrowedIsRead(ty, v);
    DecodedFits(ty, Encode(ty, v, false), false, false);
    if EnumsFit(ty, v) {
      FittingStays(ty, v);
    }
  }

  lemma NarrowedIsRead(ty: Ty, v: Value)
    requires WellTyped(ty, v)
    ensures Decode(ty, Encode(ty, v, false), false, false) == Done(Narrowed(ty, v), [])
  {
    assert Encode(ty, v, false) + [] == Encode(ty, v, false);
    Consumes(ty, v, [], false, false);
  }

  /** Serialising and deserialising into a fresh target gives the value back, with the
      cursor exactly behind its encoding, if and only if every enumerator survives 32
      bits and the read does not end with an empty string at the very end of the last
      chunk. */
  lemma RoundTripExactly(ty: Ty, v: Value, rest: bytes, little: bool, tight: bool)
    requires WellTyped(ty, v)
    ensures Decode(ty, Encode(ty, v, little) + rest, little, tight) == Done(v, rest)
      <==> EnumsFit(ty, v) && !Crashes(ty, v, rest, tight)
    ensures Decode(ty, Encode(ty, v, little) + rest, little, tight).Faults?
      <==> Crashes(ty, v, rest, tight)
  {
    Consumes(ty, v, rest, little, tight);
    NarrowedExactly(ty, v);
  }

  // ---- locality ----

  /** Success depends on the consumed bytes alone. */
  lemma {:induction false} Local(ty: Ty, s: bytes, more: bytes, little: bool, tight: bool, tight': bool)
    requires Decode(ty, s, little, tight).Done? && (tight' ==> tight || more != [])
    ensures var d := Decode(ty, s, little, tight);
      Decode(ty, s + more, little, tight') == Done(d.value, d.rest + more)
    decreases ty, 1
  {
    match ty
    case Base(k) => ScalarLocal(k, s, little, more);
    case Text => StringLocal(s, tight, more, tight');
    case Unit =>
    case Product(t, u) =>
      Local(t, s, more, little, tight, tight');
      Local(u, Decode(t, s, little, tight).rest, more, little, tight, tight');
    case _ =>
      Varint.Local(s, W64, more);
      var d := Varint.Decode(s, W64);
      LocalInto(ty, d.value, [], d.rest, more, little, tight, tight');
  }

  lemma {:induction false} LocalInto(ty: Ty, n: nat, c: seq<Value>, s: bytes, more: bytes, little: bool,
                                     tight: bool, tight': bool)
    requires IsContainer(ty)
    requires DecodeInto(ty, n, c, s, little, tight).Done? && (tight' ==> tight || more != [])
    ensures var d := DecodeInto(ty, n, c, s, little, tight);
      DecodeInto(ty, n, c, s + more, little, tight') == Done(d.value, d.rest + more)
    decreases ty, 0, n
  {
    if n > 0 {
      Local(ty.elem, s, more, little, tight, tight');
      var d := Decode(ty.elem, s, little, tight);
      LocalInto(ty, n - 1, Add(ty, c, d.value), d.rest, more, little, tight, tight');
    }
  }

  /** A read can run into the null chunk pointer only when nothing is left to read and
      the data fills its last chunk. */
  lemma {:induction false} FaultsOnlyAtTheEnd(ty: Ty, s: bytes, little: bool, tight: bool)
    requires Decode(ty, s, little, tight).Faults?
    ensures tight && Decode(ty, s, little, tight).rest == []
    decreases ty, 1
  {
    match ty
    case Product(t, u) =>
      var d := Decode(t, s, little, tight);
      if d.Done? {
        FaultsOnlyAtTheEnd(u, d.rest, little, tight);
      } else {
        FaultsOnlyAtTheEnd(t, s, little, tight);
      }
    case Base(_) =>
    case Text =>
    case Unit =>
    case _ =>
      var d := Varint.Decode(s, W64);
      FaultsIntoOnlyAtTheEnd(ty, d.value, [], d.rest, little, tight);
  }

  lemma {:induction false} FaultsIntoOnlyAtTheEnd(ty: Ty, n: nat, c: seq<Value>, s: bytes, little: bool, tight: bool)
    requires IsContainer(ty) && DecodeInto(ty, n, c, s, little, tight).Faults?
    ensures tight && DecodeInto(ty, n, c, s, little, tight).rest == []
    decreases ty, 0, n
  {
    var d := Decode(ty.elem, s, little, tight);
    if d.Done? {
      FaultsIntoOnlyAtTheEnd(ty, n - 1, Add(ty, c, d.value), d.rest, little, tight);
    } else {
      FaultsOnlyAtTheEnd(ty.elem, s, little, tight);
    }
  }
}
