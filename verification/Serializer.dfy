/** `Serializer`: the typed stream over a shared `ByteArray`. */
module Serializers {
  import opened Bytes
  import opened Words
  import opened Wire
  import opened Codec
  import opened ByteArrays
  import Varint

  /** A `Serializer` is copied by value, but every copy points to the same buffer. */
  datatype Serializer = Serializer(byteArray: ByteArray) {

    // ---- `<<` ----

    method WriteScalar(k: Scalar, n: int)
      requires byteArray.Valid() && InRange(k, n)
      modifies byteArray.Repr
      ensures byteArray.Wrote(EncodeScalar(k, n, old(byteArray.littleEndian)))
    {
      match k
      case Bool => byteArray.WriteFuint8(n);
      case Integer(w, signed) => WriteInteger(n, w, signed);
      case Float32 => byteArray.WriteFint(n, W32);
      case Float64 => byteArray.WriteFint(n, W64);
      case Enum(_, _) => WriteInteger(ToSigned(n, W32), W32, true);
    }

    method WriteInteger(n: int, w: Width, signed: bool)
      requires byteArray.Valid() && if signed then IsSigned(n, w) else IsUnsigned(n, w)
      modifies byteArray.Repr
      ensures byteArray.Wrote(EncodeInteger(n, w, signed, old(byteArray.littleEndian)))
    {
      match w
      case W8 => byteArray.WriteFuint8(ToUnsigned(n, W8));
      case W16 => byteArray.WriteFint(ToUnsigned(n, W16), W16);
      case _ =>
        if signed {
          byteArray.WriteZigzag(n, w);
        } else {
          byteArray.WriteVarint(n, w);
        }
    }

    method Write(ty: Ty, v: Value)
      requires byteArray.Valid() && WellTyped(ty, v)
      modifies byteArray.Repr
      ensures byteArray.Wrote(Encode(ty, v, old(byteArray.littleEndian)))
      decreases ty, 1
    {
      hide ByteArray.Valid, ByteArray.Snap, WrittenSince;
      ghost var s, le := byteArray.Snap(), byteArray.littleEndian;
      match ty
      case Base(k) => WriteScalar(k, v.n);
      case Text => byteArray.WriteStringVint(v.s);
      case Unit => byteArray.WroteNothing();
      case Product(t, u) =>
        Write(t, v.first);
        ghost var mid := byteArray.Snap();
        Write(u, v.rest);
        WrittenMore(s, mid, byteArray.Snap(), byteArray.baseSize,
                    Encode(t, v.first, le), Encode(u, v.rest, le));
      case _ =>
        byteArray.WriteVarint(|v.vs|, W64);
        ghost var mid := byteArray.Snap();
        WriteAll(ty.elem, v.vs);
        WrittenMore(s, mid, byteArray.Snap(), byteArray.baseSize,
                    Varint.Encode(|v.vs|), EncodeAll(ty.elem, v.vs, le));
    }

    /** The loop over the elements of a container. */
    method WriteAll(elem: Ty, vs: seq<Value>)
      requires byteArray.Valid() && AllTyped(elem, vs)
      modifies byteArray.Repr
      ensures byteArray.Wrote(EncodeAll(elem, vs, old(byteArray.littleEndian)))
      decreases elem, 3
    {
      ghost var s := byteArray.Snap();
      byteArray.WroteNothing();
      assert vs[..0] == [] && vs[..|vs|] == vs;
      hide *;
      var i := 0;
      while i < |vs|
        invariant 0 <= i <= |vs| && AllTyped(elem, vs[..i])
        invariant byteArray.Valid() && byteArray.littleEndian == s.littleEndian
        invariant fresh(byteArray.Repr - old(byteArray.Repr))
        invariant WrittenSince(s, byteArray.Snap(), byteArray.baseSize, EncodeAll(elem, vs[..i], s.littleEndian))
      {
        WriteNext(elem, vs, i, s);
        i := i + 1;
      }
    }

    method WriteNext(elem: Ty, vs: seq<Value>, i: nat, ghost s: Snapshot)
      requires byteArray.Valid() && i < |vs| && AllTyped(elem, vs) && AllTyped(elem, vs[..i])
      requires byteArray.littleEndian == s.littleEndian
      requires WrittenSince(s, byteArray.Snap(), byteArray.baseSize, EncodeAll(elem, vs[..i], s.littleEndian))
      modifies byteArray.Repr
      ensures byteArray.Valid() && byteArray.littleEndian == s.littleEndian
      ensures fresh(byteArray.Repr - old(byteArray.Repr))
      ensures AllTyped(elem, vs[..i + 1])
      ensures WrittenSince(s, byteArray.Snap(), byteArray.baseSize, EncodeAll(elem, vs[..i + 1], s.littleEndian))
      decreases elem, 2
    {
      hide ByteArray.Valid, ByteArray.Snap, WrittenSince, EncodeAll, Encode, AllTyped, WellTyped;
      EncodeNext(elem, vs, i, s.littleEndian);
      ghost var mid := byteArray.Snap();
      Write(elem, vs[i]);
      WrittenMore(s, mid, byteArray.Snap(), byteArray.baseSize,
                  EncodeAll(elem, vs[..i], s.littleEndian), Encode(elem, vs[i], s.littleEndian));
    }

    // ---- `>>` ----

    method ReadScalar(k: Scalar) returns (r: Read<int>)
      requires byteArray.Valid()
      modifies byteArray`position, byteArray`cur, byteArray`at
      ensures r == DecodeScalar(k, old(byteArray.Readable()), byteArray.littleEndian).Result()
      ensures byteArray.Advanced(DecodeScalar(k, old(byteArray.Readable()), byteArray.littleEndian).rest)
    {
      OneByte(byteArray.Readable(), byteArray.littleEndian);
      hide ByteArray.Valid, ByteArray.Mem, ByteArray.Readable;
      match k
      case Bool =>
        var b := byteArray.ReadFuint8();
        r := if b.Value? then Value(if b.value == 0 then 0 else 1) else OutOfRange;
      case Integer(w, signed) => r := ReadInteger(w, signed);
      case Float32 => r := byteArray.ReadFint(W32);
      case Float64 => r := byteArray.ReadFint(W64);
      case Enum(w, signed) =>
        var n := ReadInteger(W32, true);
        r := if n.Value? then Value(Convert(n.value, w, signed)) else OutOfRange;
    }

    method ReadInteger(w: Width, signed: bool) returns (r: Read<int>)
      requires byteArray.Valid()
      modifies byteArray`position, byteArray`cur, byteArray`at
      ensures r == DecodeInteger(old(byteArray.Readable()), w, signed, byteArray.littleEndian).Result()
      ensures byteArray.Advanced(DecodeInteger(old(byteArray.Readable()), w, signed, byteArray.littleEndian).rest)
    {
      OneByte(byteArray.Readable(), byteArray.littleEndian);
      hide ByteArray.Valid, ByteArray.Mem, ByteArray.Readable;
      match w
      case W8 =>
        var b := byteArray.ReadFuint8();
        r := if b.Value? then Value(Convert(b.value, W8, signed)) else OutOfRange;
      case W16 =>
        var u := byteArray.ReadFint(W16);
        r := if u.Value? then Value(Convert(u.value, W16, signed)) else OutOfRange;
      case _ =>
        if signed {
          r := byteArray.ReadZigzag(w);
        } else {
          r := byteArray.ReadVarint(w);
        }
    }

    /** `>>` into a fresh target. */
    method Read(ty: Ty) returns (r: Read<Value>)
      requires byteArray.Valid()
      modifies byteArray`position, byteArray`cur, byteArray`at
      ensures r == Decode(ty, old(byteArray.Readable()), byteArray.littleEndian, old(byteArray.Tight())).Result()
      ensures byteArray.Advanced(
        Decode(ty, old(byteArray.Readable()), byteArray.littleEndian, old(byteArray.Tight())).rest)
      decreases ty, 1
    {
      hide ByteArray.Valid, ByteArray.Mem, ByteArray.Readable;
      match ty
      case Base(k) =>
        var n := ReadScalar(k);
        r := if n.Value? then Value(Num(n.value)) else OutOfRange;
      case Text =>
        var t := byteArray.ReadStringVint();
        r := if t.Value? then Value(Str(t.value)) else if t.OutOfRange? then OutOfRange else NullChunk;
      case Unit =>
        r := Value(Empty);
      case Product(t, u) =>
        r := Read(t);
        if r.Value? {
          var first := r.value;
          r := Read(u);
          if r.Value? {
            r := Value(Pair(first, r.value));
          }
        }
      case _ =>
        var size := byteArray.ReadVarint(W64);
        if !size.Value? {
          return OutOfRange;
        }
        r := ReadAll(ty, size.value, []);
    }

    /** The loop that reads `n` elements into a container holding `c`. */
    method ReadAll(ty: Ty, n: nat, c: seq<Value>) returns (r: Read<Value>)
      requires byteArray.Valid() && IsContainer(ty)
      modifies byteArray`position, byteArray`cur, byteArray`at
      ensures
        var d := DecodeInto(ty, n, c, old(byteArray.Readable()), byteArray.littleEndian, old(byteArray.Tight()));
        r == d.Result() && byteArray.Advanced(d.rest)
      decreases ty, 0
    {
      hide ByteArray.Valid, ByteArray.Mem, ByteArray.Readable;
      ghost var s, le, tight := byteArray.Readable(), byteArray.littleEndian, byteArray.Tight();
      var v := c;
      var i := 0;
      while i < n
        invariant 0 <= i <= n
        invariant byteArray.Valid() && byteArray.Advanced(byteArray.Readable()) && byteArray.Tight() == tight
        invariant DecodeInto(ty, n, c, s, le, tight) == DecodeInto(ty, n - i, v, byteArray.Readable(), le, tight)
      {
        var t := Read(ty.elem);
        if !t.Value? {
          return t;
        }
        v := Add(ty, v, t.value);
        i := i + 1;
      }
      r := Value(Items(v));
    }

    // ---- the rest of the interface ----

    /** `writeRowData`: a negative length becomes a `size_t` that no memory has room for. */
    method WriteRowData(data: bytes, len: int) returns (ok: bool)
      requires byteArray.Valid() && IsSigned(len, W32) && len <= |data|
      modifies byteArray.Repr
      ensures ok <==> len >= 0
      ensures ok ==> byteArray.Wrote(data[..len])
    {
      if len < 0 {
        return false;
      }
      byteArray.Write(data[..len]);
      return true;
    }

    /** `reset`: back to the first byte. */
    method Reset()
      requires byteArray.Valid()
      modifies byteArray`position, byteArray`size, byteArray`cur, byteArray`at
      ensures byteArray.Valid() && byteArray.position == 0 && byteArray.size == old(byteArray.size)
    {
      var ok := byteArray.SetPosition(0);
    }

    method ToString() returns (s: bytes)
      requires byteArray.Valid()
      ensures s == byteArray.Readable()
    {
      s := byteArray.ToString();
    }
  }

  /** The default constructor. */
  method Create(base: nat := BLOCK) returns (s: Serializer)
    requires base > 0
    ensures fresh(s.byteArray.Repr) && IsEmpty(s.byteArray, base)
  {
    var b := new ByteArray(base);
    s := Serializer(b);
  }

  /** The constructor from a string; not `ok` where the allocation throws. */
  method FromBytes(data: bytes, base: nat := BLOCK) returns (ok: bool, s: Serializer)
    requires base > 0
    ensures
      match RowData(data)
      case Some(held) => ok && fresh(s.byteArray.Repr) && HoldsExactly(s.byteArray, base, held)
      case None => !ok
  {
    hide ByteArray.Links, ByteArray.Holds, ByteArray.InChunk, ByteArray.NodeAt;
    Varint.ReducingShrinks(|data|, W32);
    s := Create(base);
    ok := s.WriteRowData(data, ToSigned(|data|, W32));
    if ok {
      s.Reset();
      s.byteArray.TightWhenFull();
    }
  }

  /** A fresh buffer with the encoding of `v`, ready to be read. */
  method Serialize(ty: Ty, v: Value, base: nat := BLOCK) returns (s: Serializer)
    requires base > 0 && WellTyped(ty, v)
    ensures fresh(s.byteArray.Repr) && HoldsExactly(s.byteArray, base, Encode(ty, v, false))
  {
    hide ByteArray.Links, ByteArray.Holds, ByteArray.InChunk, ByteArray.NodeAt, Encode, WellTyped;
    s := Create(base);
    s.Write(ty, v);
    s.Reset();
    s.byteArray.TightWhenFull();
  }

  /** Serialise, reset, deserialise, on a buffer of any chunk size: what is left of the
      value after the detour of its enumerators, which is all if they fit, unless the
      encoding fills its last chunk and ends with an empty string. */
  method WriteThenRead(ty: Ty, v: Value, base: nat) returns (r: Read<Value>)
    requires base > 0 && WellTyped(ty, v)
    ensures
      var n := |Encode(ty, v, false)|;
      && (r == if Full(n, base) && EmptyTail(ty, v) then NullChunk else Value(Narrowed(ty, v)))
      && (Narrowed(ty, v) == v <==> EnumsFit(ty, v))
  {
    hide ByteArray.Links, ByteArray.Holds, ByteArray.InChunk, ByteArray.Mem, Encode, Decode;
    var s := Serialize(ty, v, base);
    ghost var bs := Encode(ty, v, false);
    assert bs == bs + [];
    NarrowedExactly(ty, v);
    Consumes(ty, v, [], false, Full(|bs|, base));
    r := s.Read(ty);
  }

  /** A pair of strings, the second one empty, that fills one default chunk: reading it
      back dereferences the null chunk pointer. */
  lemma CrashExample(v: Value)
    requires v == Pair(Str(seq(4093, _ => 65)), Pair(Str([]), Empty))
    ensures
      var ty := Product(Text, Product(Text, Unit));
      && WellTyped(ty, v) && EnumsFit(ty, v)
      && |Encode(ty, v, false)| == BLOCK && EmptyTail(ty, v)
      && Decode(ty, Encode(ty, v, false), false, true) == Faults([])
  {
    var ty := Product(Text, Product(Text, Unit));
    assert Varint.Encode(4093) == [4093 % 0x80 + 0x80] + Varint.Encode(4093 / 0x80);
    assert |Encode(Text, v.first, false)| == 4095;
    assert Encode(Product(Text, Unit), v.rest, false) == Encode(Text, v.rest.first, false) + Encode(Unit, Empty, false);
    var bs := Encode(ty, v, false);
    assert bs + [] == bs;
    Consumes(ty, v, [], false, true);
  }
}
