/** The order of the sorted containers, and what a read into one leaves of the elements
    that were written. */
module SortedContainers {
  import opened Bytes
  import opened Words
  import opened Codec
  import opened CodecLaws
  import Varint

  // ---- the order ----

  /** Types without floating-point numbers, whose order is total. */
  predicate Total(ty: Ty) {
    match ty
    case Base(k) => !k.Float32? && !k.Float64?
    case Product(t, u) => Total(t) && Total(u)
    case Sequence(t) => Total(t)
    case Ordered(t, _, _) => Total(t)
    case _ => true
  }

  /** A value of the type's form, whatever its numbers. */
  predicate Formed(ty: Ty, v: Value)
    decreases ty, 0
  {
    match ty
    case Base(_) => v.Num?
    case Text => v.Str?
    case Unit => v.Empty?
    case Product(t, u) => v.Pair? && Formed(t, v.first) && Formed(u, v.rest)
    case Sequence(t) => v.Items? && AllFormed(t, v.vs)
    case Ordered(t, _, _) => v.Items? && AllFormed(t, v.vs)
  }

  predicate AllFormed(ty: Ty, vs: seq<Value>)
    decreases ty, 1, |vs|
  {
    vs == [] || (Formed(ty, vs[0]) && AllFormed(ty, vs[1..]))
  }

  lemma {:induction false} FormedAt(ty: Ty, vs: seq<Value>)
    ensures AllFormed(ty, vs) <==> forall i :: 0 <= i < |vs| ==> Formed(ty, vs[i])
  {
    if vs != [] {
      FormedAt(ty, vs[1..]);
      assert forall i :: 1 <= i < |vs| ==> vs[i] == vs[1..][i - 1];
      assert (forall i :: 0 <= i < |vs[1..]| ==> Formed(ty, vs[1..][i])) ==>
          forall i :: 1 <= i < |vs| ==> Formed(ty, vs[i]);
    }
  }

  /** Numbers are in ascending order. */
  lemma NumbersAscend(k: Scalar, x: int, y: int)
    requires Total(Base(k))
    ensures Less(Base(k), Num(x), Num(y)) <==> x < y
  {
  }

  /** Floating-point numbers by their bit patterns: positive ones ascend and negative ones
      descend with the pattern, the two zeros are the same, and a NaN is never less. */
  lemma FloatsAscend(k: Scalar, x: nat, y: nat)
    requires k.Float32? || k.Float64?
    requires InRange(k, x) && InRange(k, y)
    ensures
      var sign: nat := if k.Float32? then 0x8000_0000 else 0x8000_0000_0000_0000;
      var top: nat := if k.Float32? then 0x7F80_0000 else 0x7FF0_0000_0000_0000;
      var p, q := if x < sign then x else x - sign, if y < sign then y else y - sign;
      Less(Base(k), Num(x), Num(y)) <==>
        && p <= top && q <= top
        && if x < sign then y < sign && p < q
           else if y < sign then p > 0 || q > 0 else p > q
  {
    var sign: nat := if k.Float32? then 0x8000_0000 else 0x8000_0000_0000_0000;
    WithoutSign(x, sign);
    WithoutSign(y, sign);
  }

  lemma WithoutSign(x: nat, sign: nat)
    requires sign > 0 && x < 2 * sign
    ensures x % sign == if x < sign then x else x - sign
  {
    var q, r := if x < sign then 0 else 1, if x < sign then x else x - sign;
    assert x == sign * q + r && x == sign * (x / sign) + x % sign;
    assert x / sign == q;
  }

  /** The first byte that differs decides, and a proper prefix comes first. */
  predicate TextLess(a: bytes, b: bytes) {
    exists i :: 0 <= i <= |a| && i < |b| && a[..i] == b[..i] && (i == |a| || a[i] < b[i])
  }

  lemma {:induction false} TextsAscend(a: bytes, b: bytes)
    ensures Less(Text, Str(a), Str(b)) <==> TextLess(a, b)
  {
    if a == [] || b == [] || a[0] != b[0] {
      if b != [] && (a == [] || a[0] < b[0]) {
        assert a[..0] == b[..0];
      }
      if TextLess(a, b) && a != [] {
        var i :| 0 <= i <= |a| && i < |b| && a[..i] == b[..i] && (i == |a| || a[i] < b[i]);
        if i > 0 {
          SameFirst(a, b, i);
        }
      }
    } else {
      TextsAscend(a[1..], b[1..]);
      TextLessRest(a, b);
    }
  }

  lemma SameFirst(a: bytes, b: bytes, i: nat)
    requires 0 < i <= |a| && i <= |b| && a[..i] == b[..i]
    ensures a[0] == b[0]
  {
    assert a[..i][0] == b[..i][0];
  }

  lemma TextLessRest(a: bytes, b: bytes)
    requires a != [] && b != [] && a[0] == b[0]
    ensures TextLess(a, b) <==> TextLess(a[1..], b[1..])
  {
    if TextLess(a, b) {
      var i :| 0 <= i <= |a| && i < |b| && a[..i] == b[..i] && (i == |a| || a[i] < b[i]);
      assert i > 0;
      assert a[1..][..i - 1] == a[..i][1..] && b[1..][..i - 1] == b[..i][1..];
    }
    if TextLess(a[1..], b[1..]) {
      var a', b' := a[1..], b[1..];
      var i :| 0 <= i <= |a'| && i < |b'| && a'[..i] == b'[..i] && (i == |a'| || a'[i] < b'[i]);
      assert a[..i + 1] == [a[0]] + a'[..i] && b[..i + 1] == [b[0]] + b'[..i];
    }
  }

  lemma {:induction false} SameText(a: bytes, b: bytes)
    ensures CompareTexts(a, b) != Unordered && (CompareTexts(a, b) == Same <==> a == b)
  {
    if a != [] && b != [] {
      SameText(a[1..], b[1..]);
      assert a == [a[0]] + a[1..] && b == [b[0]] + b[1..];
    }
  }

  /** Any two values are comparable, and they are the same only if they are equal. */
  lemma {:induction false} SameIsEqual(ty: Ty, a: Value, b: Value)
    requires Total(ty) && Formed(ty, a) && Formed(ty, b)
    ensures Compare(ty, a, b) != Unordered && (Compare(ty, a, b) == Same <==> a == b)
    decreases ty, 0
  {
    match ty
    case Text => SameText(a.s, b.s);
    case Product(t, u) =>
      SameIsEqual(t, a.first, b.first);
      SameIsEqual(u, a.rest, b.rest);
    case Sequence(t) => AllSameAreEqual(t, a.vs, b.vs);
    case Ordered(t, _, _) => AllSameAreEqual(t, a.vs, b.vs);
    case _ =>
  }

  lemma {:induction false} AllSameAreEqual(ty: Ty, xs: seq<Value>, ys: seq<Value>)
    requires Total(ty) && AllFormed(ty, xs) && AllFormed(ty, ys)
    ensures CompareAll(ty, xs, ys) != Unordered && (CompareAll(ty, xs, ys) == Same <==> xs == ys)
    decreases ty, 1, |xs|
  {
    if xs != [] && ys != [] {
      SameIsEqual(ty, xs[0], ys[0]);
      AllSameAreEqual(ty, xs[1..], ys[1..]);
      assert xs == [xs[0]] + xs[1..] && ys == [ys[0]] + ys[1..];
    }
  }

  /** Pairs and tuples by the first member that differs. */
  lemma PairsAscend(t: Ty, u: Ty, a: Value, b: Value)
    requires Total(Product(t, u)) && Formed(Product(t, u), a) && Formed(Product(t, u), b)
    ensures Less(Product(t, u), a, b) <==> Less(t, a.first, b.first) || (a.first == b.first && Less(u, a.rest, b.rest))
  {
    SameIsEqual(t, a.first, b.first);
  }

  lemma {:induction false} TextTransitive(a: bytes, b: bytes, c: bytes)
    requires CompareTexts(a, b) == Below && CompareTexts(b, c) == Below
    ensures CompareTexts(a, c) == Below
  {
    if a != [] && b != [] && c != [] {
      if a[0] == b[0] == c[0] {
        TextTransitive(a[1..], b[1..], c[1..]);
      }
    }
  }

  lemma {:induction false} LessTransitive(ty: Ty, a: Value, b: Value, c: Value)
    requires Total(ty) && Formed(ty, a) && Formed(ty, b) && Formed(ty, c)
    requires Less(ty, a, b) && Less(ty, b, c)
    ensures Less(ty, a, c)
    decreases ty, 0
  {
    match ty
    case Text => TextTransitive(a.s, b.s, c.s);
    case Product(t, u) =>
      PairsAscend(t, u, a, b);
      PairsAscend(t, u, b, c);
      PairsAscend(t, u, a, c);
      if Less(t, a.first, b.first) && Less(t, b.first, c.first) {
        LessTransitive(t, a.first, b.first, c.first);
      } else if a.first == b.first == c.first {
        LessTransitive(u, a.rest, b.rest, c.rest);
      }
    case Sequence(t) => AllTransitive(t, a.vs, b.vs, c.vs);
    case Ordered(t, _, _) => AllTransitive(t, a.vs, b.vs, c.vs);
    case _ =>
  }

  lemma {:induction false} AllTransitive(ty: Ty, xs: seq<Value>, ys: seq<Value>, zs: seq<Value>)
    requires Total(ty) && AllFormed(ty, xs) && AllFormed(ty, ys) && AllFormed(ty, zs)
    requires CompareAll(ty, xs, ys) == Below && CompareAll(ty, ys, zs) == Below
    ensures CompareAll(ty, xs, zs) == Below
    decreases ty, 1, |xs|
  {
    if xs != [] && ys != [] && zs != [] {
      var x, y, z := xs[0], ys[0], zs[0];
      SameIsEqual(ty, x, y);
      SameIsEqual(ty, y, z);
      SameIsEqual(ty, x, z);
      if Less(ty, x, y) && Less(ty, y, z) {
        LessTransitive(ty, x, y, z);
      } else if x == y == z {
        AllTransitive(ty, xs[1..], ys[1..], zs[1..]);
      }
    }
  }

  // ---- reading into a sorted container ----

  /** A set orders whole elements, a map its entries by their keys. */
  function KeyTy(ty: Ty): Ty
    requires ty.Ordered?
  {
    if ty.byFirst && ty.elem.Product? then ty.elem.first else ty.elem
  }

  function KeyOf(ty: Ty, e: Value): Value
    requires ty.Ordered?
  {
    if ty.byFirst && ty.elem.Product? && e.Pair? then e.first else e
  }

  /** The elements with the key `key`, in their order. */
  function Having(ty: Ty, c: seq<Value>, key: Value): seq<Value>
    requires ty.Ordered?
  {
    if c == [] then []
    else (if KeyOf(ty, c[0]) == key then [c[0]] else []) + Having(ty, c[1..], key)
  }

  lemma {:induction false} HavingSplit(ty: Ty, a: seq<Value>, b: seq<Value>, key: Value)
    requires ty.Ordered?
    ensures Having(ty, a + b, key) == Having(ty, a, key) + Having(ty, b, key)
  {
    if a == [] {
      assert a + b == b;
    } else {
      HavingFirst(ty, a, key);
      HavingFirst(ty, a + b, key);
      hide *;
      HavingSplit(ty, a[1..], b, key);
      FirstOfBoth(a, b);
      Regroup(Having(ty, [a[0]], key), Having(ty, a[1..], key), Having(ty, b, key));
    }
  }

  lemma HavingFirst(ty: Ty, c: seq<Value>, key: Value)
    requires ty.Ordered? && c != []
    ensures Having(ty, c, key) == Having(ty, [c[0]], key) + Having(ty, c[1..], key)
  {
    HavingOne(ty, c[0], key);
  }

  lemma HavingOne(ty: Ty, e: Value, key: Value)
    requires ty.Ordered?
    ensures Having(ty, [e], key) == if KeyOf(ty, e) == key then [e] else []
  {
    assert Having(ty, [e][1..], key) == [];
  }

  lemma FirstOfBoth(a: seq<Value>, b: seq<Value>)
    requires a != []
    ensures (a + b)[0] == a[0] && (a + b)[1..] == a[1..] + b
  {
  }

  lemma Regroup(a: seq<Value>, b: seq<Value>, c: seq<Value>)
    ensures a + b + c == a + (b + c)
  {
  }

  lemma {:induction false} HavingNone(ty: Ty, c: seq<Value>, key: Value)
    requires ty.Ordered?
    ensures Having(ty, c, key) == [] <==> forall i :: 0 <= i < |c| ==> KeyOf(ty, c[i]) != key
  {
    if c != [] {
      HavingNone(ty, c[1..], key);
      assert forall i :: 1 <= i < |c| ==> c[i] == c[1..][i - 1];
      assert (forall i :: 0 <= i < |c[1..]| ==> KeyOf(ty, c[1..][i]) != key) ==>
          forall i :: 1 <= i < |c| ==> KeyOf(ty, c[i]) != key;
    }
  }

  /** The keys ascend, strictly unless the container is a `multi` one. */
  predicate Ascending(ty: Ty, c: seq<Value>)
    requires ty.Ordered?
  {
    forall i, j :: 0 <= i < j < |c| ==>
      || Less(KeyTy(ty), KeyOf(ty, c[i]), KeyOf(ty, c[j]))
      || (ty.multi && KeyOf(ty, c[i]) == KeyOf(ty, c[j]))
  }

  /** What a container keeps of the elements `vs` with one key. */
  function Kept(ty: Ty, vs: seq<Value>): seq<Value>
    requires ty.Ordered?
  {
    if ty.multi || vs == [] then vs else [vs[0]]
  }

  lemma KeyLessIs(ty: Ty, a: Value, b: Value)
    requires ty.Ordered? && Formed(ty.elem, a) && Formed(ty.elem, b)
    ensures KeyLess(ty.elem, ty.byFirst, a, b) == Less(KeyTy(ty), KeyOf(ty, a), KeyOf(ty, b))
    ensures Formed(KeyTy(ty), KeyOf(ty, a)) && Formed(KeyTy(ty), KeyOf(ty, b))
  {
  }

  /** Two keys that are in order are different, and are not the other way round. */
  lemma KeysDiffer(ty: Ty, a: Value, b: Value)
    requires ty.Ordered? && Total(KeyTy(ty)) && Formed(ty.elem, a) && Formed(ty.elem, b)
    ensures
      var k, x, y := KeyTy(ty), KeyOf(ty, a), KeyOf(ty, b);
      && (Less(k, x, y) || Less(k, y, x) || x == y) && !(Less(k, x, y) && Less(k, y, x))
      && (x == y ==> !Less(k, x, y) && !Less(k, y, x))
  {
    var k, x, y := KeyTy(ty), KeyOf(ty, a), KeyOf(ty, b);
    KeyLessIs(ty, a, b);
    SameIsEqual(k, x, y);
    CompareFlips(k, x, y);
  }

  lemma KeyTransitive(ty: Ty, a: Value, b: Value, c: Value)
    requires ty.Ordered? && Total(KeyTy(ty)) && Formed(ty.elem, a) && Formed(ty.elem, b) && Formed(ty.elem, c)
    requires Less(KeyTy(ty), KeyOf(ty, a), KeyOf(ty, b)) && Less(KeyTy(ty), KeyOf(ty, b), KeyOf(ty, c))
    ensures Less(KeyTy(ty), KeyOf(ty, a), KeyOf(ty, c))
  {
    KeyLessIs(ty, a, b);
    KeyLessIs(ty, b, c);
    LessTransitive(KeyTy(ty), KeyOf(ty, a), KeyOf(ty, b), KeyOf(ty, c));
  }

  /** Where `e` belongs: behind the keys up to its own, before those above it. */
  lemma {:induction false} Place(ty: Ty, c: seq<Value>, e: Value)
    requires ty.Ordered? && Total(KeyTy(ty)) && AllFormed(ty.elem, c) && Formed(ty.elem, e) && Ascending(ty, c)
    ensures
      var i, k := UpperBound(ty, c, e), KeyTy(ty);
      && (forall j :: 0 <= j < i ==> Less(k, KeyOf(ty, c[j]), KeyOf(ty, e)) || KeyOf(ty, c[j]) == KeyOf(ty, e))
      && (forall j :: i <= j < |c| ==> Less(k, KeyOf(ty, e), KeyOf(ty, c[j])))
  {
    hide Less, Total, Formed, KeyTy, KeyOf;
    if c != [] {
      var i, k := UpperBound(ty, c, e), KeyTy(ty);
      KeyLessIs(ty, e, c[0]);
      KeysDiffer(ty, e, c[0]);
      FormedAt(ty.elem, c);
      if i == 0 {
        forall j | 0 <= j < |c| ensures Less(k, KeyOf(ty, e), KeyOf(ty, c[j])) {
          if j > 0 && Less(k, KeyOf(ty, c[0]), KeyOf(ty, c[j])) {
            KeyTransitive(ty, e, c[0], c[j]);
          }
        }
      } else {
        assert Ascending(ty, c[1..]);
        Place(ty, c[1..], e);
        assert forall j :: 1 <= j < |c| ==> c[j] == c[1..][j - 1];
      }
    }
  }

  /** The container holds what is kept of the elements `xs` that came, key by key. */
  ghost predicate Holds(ty: Ty, c: seq<Value>, xs: seq<Value>)
    requires ty.Ordered?
  {
    forall key :: Having(ty, c, key) == Kept(ty, Having(ty, xs, key))
  }

  /** Putting `e` behind the keys up to its own keeps the order, unless the key is there
      and the container has each key once. */
  lemma InsertAscends(ty: Ty, c: seq<Value>, e: Value, i: nat)
    requires ty.Ordered? && Ascending(ty, c) && i <= |c|
    requires forall j :: 0 <= j < i ==>
      Less(KeyTy(ty), KeyOf(ty, c[j]), KeyOf(ty, e)) || (ty.multi && KeyOf(ty, c[j]) == KeyOf(ty, e))
    requires forall j :: i <= j < |c| ==> Less(KeyTy(ty), KeyOf(ty, e), KeyOf(ty, c[j]))
    ensures Ascending(ty, c[..i] + [e] + c[i..])
  {
    hide Less, KeyTy, KeyOf;
    var d := c[..i] + [e] + c[i..];
    assert forall j :: 0 <= j < |d| ==> d[j] == if j < i then c[j] else if j == i then e else c[j - 1];
  }

  lemma InsertHolds(ty: Ty, c: seq<Value>, xs: seq<Value>, e: Value, i: nat, key: Value)
    requires ty.Ordered? && i <= |c| && Having(ty, c, key) == Kept(ty, Having(ty, xs, key))
    requires KeyOf(ty, e) == key ==> Having(ty, c[i..], key) == []
    requires KeyOf(ty, e) == key && !ty.multi ==> Having(ty, c, key) == []
    ensures Having(ty, c[..i] + [e] + c[i..], key) == Kept(ty, Having(ty, xs + [e], key))
  {
    hide *;
    var p, q, h, one := Having(ty, c[..i], key), Having(ty, c[i..], key), Having(ty, xs, key), Having(ty, [e], key);
    Halves(c, i);
    HavingSplit(ty, c[..i], c[i..], key);
    HavingSplit(ty, c[..i] + [e], c[i..], key);
    HavingSplit(ty, c[..i], [e], key);
    HavingSplit(ty, xs, [e], key);
    HavingOne(ty, e, key);
    KeptMore(ty, p, q, h, one);
  }

  lemma Halves(c: seq<Value>, i: nat)
    requires i <= |c|
    ensures c[..i] + c[i..] == c
  {
  }

  lemma KeptMore(ty: Ty, p: seq<Value>, q: seq<Value>, h: seq<Value>, one: seq<Value>)
    requires ty.Ordered? && p + q == Kept(ty, h)
    requires one == [] || (|one| == 1 && q == [] && (!ty.multi ==> p + q == []))
    ensures p + one + q == Kept(ty, h + one)
  {
    if one == [] {
      assert p + [] + q == p + q && h + [] == h;
    }
  }

  lemma EmplaceKeeps(ty: Ty, c: seq<Value>, xs: seq<Value>, e: Value)
    requires ty.Ordered? && Total(KeyTy(ty)) && AllFormed(ty.elem, c) && Formed(ty.elem, e)
    requires Ascending(ty, c) && Holds(ty, c, xs)
    ensures
      var d := Emplace(ty, c, e);
      AllFormed(ty.elem, d) && Ascending(ty, d) && Holds(ty, d, xs + [e])
  {
    var i, k := UpperBound(ty, c, e), KeyTy(ty);
    hide Less, Total, Formed, KeyTy, KeyOf, Having, KeyLess, UpperBound;
    Place(ty, c, e);
    FormedAt(ty.elem, c);
    if i > 0 {
      KeyLessIs(ty, c[i - 1], e);
      KeysDiffer(ty, c[i - 1], e);
    }
    if !ty.multi && i > 0 && !KeyLess(ty.elem, ty.byFirst, c[i - 1], e) {
      forall key ensures Having(ty, c, key) == Kept(ty, Having(ty, xs + [e], key)) {
        KeyThere(ty, c, xs, e, i - 1, key);
      }
    } else {
      EmplaceNew(ty, c, xs, e, i);
    }
  }

  /** The key is there already, and is kept once. */
  lemma KeyThere(ty: Ty, c: seq<Value>, xs: seq<Value>, e: Value, j: nat, key: Value)
    requires ty.Ordered? && !ty.multi && j < |c| && KeyOf(ty, c[j]) == KeyOf(ty, e)
    requires Having(ty, c, key) == Kept(ty, Having(ty, xs, key))
    ensures Having(ty, c, key) == Kept(ty, Having(ty, xs + [e], key))
  {
    HavingSplit(ty, xs, [e], key);
    HavingOne(ty, e, key);
    HavingNone(ty, c, key);
    hide Having, KeyOf;
  }

  lemma EmplaceNew(ty: Ty, c: seq<Value>, xs: seq<Value>, e: Value, i: nat)
    requires ty.Ordered? && Total(KeyTy(ty)) && AllFormed(ty.elem, c) && Formed(ty.elem, e) && i <= |c|
    requires Ascending(ty, c) && Holds(ty, c, xs)
    requires forall j :: 0 <= j < i ==>
      Less(KeyTy(ty), KeyOf(ty, c[j]), KeyOf(ty, e)) || KeyOf(ty, c[j]) == KeyOf(ty, e)
    requires forall j :: i <= j < |c| ==> Less(KeyTy(ty), KeyOf(ty, e), KeyOf(ty, c[j]))
    requires !ty.multi && i > 0 ==> Less(KeyTy(ty), KeyOf(ty, c[i - 1]), KeyOf(ty, e))
    ensures
      var d := c[..i] + [e] + c[i..];
      AllFormed(ty.elem, d) && Ascending(ty, d) && Holds(ty, d, xs + [e])
  {
    hide Less, Total, Formed, KeyTy, KeyOf, Having;
    FormedAt(ty.elem, c);
    forall j | 0 <= j < i && !ty.multi ensures Less(KeyTy(ty), KeyOf(ty, c[j]), KeyOf(ty, e)) {
      if j < i - 1 {
        KeyTransitive(ty, c[j], c[i - 1], e);
      }
    }
    InsertAscends(ty, c, e, i);
    FormedAt(ty.elem, c[..i] + [e] + c[i..]);
    forall key ensures Having(ty, c[..i] + [e] + c[i..], key) == Kept(ty, Having(ty, xs + [e], key)) {
      if KeyOf(ty, e) == key {
        NotHeld(ty, c, e, i);
      }
      InsertHolds(ty, c, xs, e, i, key);
    }
  }

  /** Keys below and above `e` are not the key of `e`. */
  lemma NotHeld(ty: Ty, c: seq<Value>, e: Value, i: nat)
    requires ty.Ordered? && Total(KeyTy(ty)) && AllFormed(ty.elem, c) && Formed(ty.elem, e) && i <= |c|
    requires forall j :: i <= j < |c| ==> Less(KeyTy(ty), KeyOf(ty, e), KeyOf(ty, c[j]))
    requires !ty.multi ==> forall j :: 0 <= j < i ==> Less(KeyTy(ty), KeyOf(ty, c[j]), KeyOf(ty, e))
    ensures Having(ty, c[i..], KeyOf(ty, e)) == []
    ensures !ty.multi ==> Having(ty, c, KeyOf(ty, e)) == []
  {
    hide Less, Total, Formed, KeyTy, KeyOf, Having;
    FormedAt(ty.elem, c);
    forall j | 0 <= j < |c| && (j >= i || !ty.multi) ensures KeyOf(ty, c[j]) != KeyOf(ty, e) {
      KeysDiffer(ty, c[j], e);
    }
    HavingNone(ty, c[i..], KeyOf(ty, e));
    HavingNone(ty, c, KeyOf(ty, e));
  }

  /** What a read produces has the form of its type. */
  lemma {:induction false} DecodedFormed(ty: Ty, s: bytes, little: bool, tight: bool)
    ensures var d := Decode(ty, s, little, tight); d.Done? ==> Formed(ty, d.value)
    decreases ty, 1
  {
    hide DecodeScalar, Varint.Decode;
    match ty
    case Product(t, u) =>
      DecodedFormed(t, s, little, tight);
      var d := Decode(t, s, little, tight);
      if d.Done? {
        DecodedFormed(u, d.rest, little, tight);
      }
    case Base(_) =>
    case Text =>
    case Unit =>
    case _ =>
      var d := Varint.Decode(s, W64);
      if d.Done? {
        AllDecodedFormed(ty, d.value, [], d.rest, little, tight);
      }
  }

  lemma {:induction false} AllDecodedFormed(ty: Ty, n: nat, c: seq<Value>, s: bytes, little: bool, tight: bool)
    requires IsContainer(ty) && AllFormed(ty.elem, c)
    ensures var d := DecodeInto(ty, n, c, s, little, tight); d.Done? ==> Formed(ty, d.value)
    decreases ty, 0, n
  {
    if n > 0 {
      DecodedFormed(ty.elem, s, little, tight);
      var d := Decode(ty.elem, s, little, tight);
      if d.Done? {
        AddFormed(ty, c, d.value);
        AllDecodedFormed(ty, n - 1, Add(ty, c, d.value), d.rest, little, tight);
      }
    }
  }

  lemma AddFormed(ty: Ty, c: seq<Value>, e: Value)
    requires IsContainer(ty) && AllFormed(ty.elem, c) && Formed(ty.elem, e)
    ensures AllFormed(ty.elem, Add(ty, c, e))
  {
    hide Formed, KeyLess;
    FormedAt(ty.elem, c);
    FormedAt(ty.elem, Add(ty, c, e));
  }

  /** The same bytes read into a sorted container and into a list. */
  lemma {:induction false} SortedInto(ty: Ty, n: nat, c: seq<Value>, xs: seq<Value>, s: bytes, little: bool,
                                      tight: bool)
    requires ty.Ordered? && Total(KeyTy(ty)) && AllFormed(ty.elem, c) && Ascending(ty, c) && Holds(ty, c, xs)
    ensures
      var d, l := DecodeInto(ty, n, c, s, little, tight), DecodeInto(Sequence(ty.elem), n, xs, s, little, tight);
      && Alike(d, l)
      && (d.Done? ==>
            d.value.Items? && l.value.Items? && Ascending(ty, d.value.vs) && Holds(ty, d.value.vs, l.value.vs))
    decreases n
  {
    hide Decode, Holds, Ascending, KeyTy, Total, Emplace, Formed;
    if n > 0 {
      DecodedFormed(ty.elem, s, little, tight);
      var d := Decode(ty.elem, s, little, tight);
      if d.Done? {
        EmplaceKeeps(ty, c, xs, d.value);
        SortedInto(ty, n - 1, Emplace(ty, c, d.value), xs + [d.value], d.rest, little, tight);
      }
    }
  }

  /** Whatever the bytes: a sorted container reads exactly what a list of its elements
      would, and ends with the keys in ascending order. Of the elements with one key it
      keeps the first, or, as a `multi` container, all in the order they came. */
  lemma SortedRead(ty: Ty, s: bytes, little: bool, tight: bool)
    requires ty.Ordered? && Total(KeyTy(ty))
    ensures
      var d, l := Decode(ty, s, little, tight), Decode(Sequence(ty.elem), s, little, tight);
      && Alike(d, l)
      && (d.Done? ==>
            d.value.Items? && l.value.Items? && Ascending(ty, d.value.vs) && Holds(ty, d.value.vs, l.value.vs))
  {
    hide DecodeInto, Total;
    var d := Varint.Decode(s, W64);
    if d.Done? {
      SortedInto(ty, d.value, [], [], d.rest, little, tight);
    }
  }

  /** No element before `i` has its key. */
  predicate First(ty: Ty, c: seq<Value>, i: nat)
    requires ty.Ordered? && i < |c|
  {
    forall j :: 0 <= j < i ==> KeyOf(ty, c[j]) != KeyOf(ty, c[i])
  }

  lemma {:induction false} HavingIs(ty: Ty, c: seq<Value>, key: Value)
    requires ty.Ordered?
    ensures forall e :: e in Having(ty, c, key) <==> e in c && KeyOf(ty, e) == key
  {
    hide KeyOf;
    if c != [] {
      HavingIs(ty, c[1..], key);
      assert c == [c[0]] + c[1..];
    }
  }

  /** The first element with a key, wherever it stands. */
  lemma {:induction false} FirstHaving(ty: Ty, c: seq<Value>, i: nat)
    requires ty.Ordered? && i < |c| && First(ty, c, i)
    ensures Having(ty, c, KeyOf(ty, c[i])) != [] && Having(ty, c, KeyOf(ty, c[i]))[0] == c[i]
  {
    HavingNone(ty, c[..i], KeyOf(ty, c[i]));
    HavingSplit(ty, c[..i], c[i..], KeyOf(ty, c[i]));
    Halves(c, i);
  }

  lemma {:induction false} FirstThere(ty: Ty, c: seq<Value>, i: nat) returns (j: nat)
    requires ty.Ordered? && i < |c|
    ensures j < |c| && KeyOf(ty, c[j]) == KeyOf(ty, c[i]) && First(ty, c, j)
    decreases i
  {
    if First(ty, c, i) {
      j := i;
    } else {
      var k: nat :| k < i && KeyOf(ty, c[k]) == KeyOf(ty, c[i]);
      j := FirstThere(ty, c, k);
    }
  }

  /** So a container without equal keys has an element if and only if it came before every
      other one with its key. */
  lemma HoldsFirst(ty: Ty, c: seq<Value>, xs: seq<Value>, e: Value)
    requires ty.Ordered? && !ty.multi && Holds(ty, c, xs)
    ensures e in c <==> exists i :: 0 <= i < |xs| && xs[i] == e && First(ty, xs, i)
  {
    hide First, KeyOf;
    var key := KeyOf(ty, e);
    HavingIs(ty, c, key);
    HavingIs(ty, xs, key);
    assert Having(ty, c, key) == Kept(ty, Having(ty, xs, key));
    if i: nat :| i < |xs| && xs[i] == e && First(ty, xs, i) {
      FirstHaving(ty, xs, i);
      assert e in Having(ty, c, key);
    }
    if e in c {
      assert e in Having(ty, c, key);
      var i: nat :| i < |xs| && xs[i] == e;
      var j := FirstThere(ty, xs, i);
      FirstHaving(ty, xs, j);
      assert xs[j] == e;
    }
  }

  /** Any bytes read into a set: strictly ascending, and exactly the elements that were
      read. */
  lemma SetRead(elem: Ty, s: bytes, little: bool, tight: bool)
    requires Total(elem)
    ensures
      var d, l := Decode(Ordered(elem, false, false), s, little, tight), Decode(Sequence(elem), s, little, tight);
      && Alike(d, l)
      && (d.Done? ==>
            && d.value.Items? && l.value.Items?
            && (forall i, j :: 0 <= i < j < |d.value.vs| ==> Less(elem, d.value.vs[i], d.value.vs[j]))
            && (forall e :: e in d.value.vs <==> e in l.value.vs))
  {
    var ty := Ordered(elem, false, false);
    hide Decode, Less, Total, Having;
    SortedRead(ty, s, little, tight);
    var d, l := Decode(ty, s, little, tight), Decode(Sequence(elem), s, little, tight);
    if d.Done? {
      forall e ensures e in d.value.vs <==> e in l.value.vs {
        HavingIs(ty, d.value.vs, e);
        HavingIs(ty, l.value.vs, e);
        assert Having(ty, d.value.vs, e) == Kept(ty, Having(ty, l.value.vs, e));
        AllEqual(Having(ty, l.value.vs, e), e);
        assert e in d.value.vs <==> e in Having(ty, d.value.vs, e);
        assert e in l.value.vs <==> e in Having(ty, l.value.vs, e);
      }
    }
  }

  lemma AllEqual(vs: seq<Value>, e: Value)
    requires forall x :: x in vs ==> x == e
    ensures e in vs <==> vs != []
    ensures vs != [] ==> vs[0] == e
  {
    if vs != [] {
      assert vs[0] in vs;
    }
  }

  /** Read into a set of integers the numbers are strictly ascending. */
  lemma IntegersRead(k: Scalar, s: bytes, little: bool, tight: bool)
    requires Total(Base(k))
    ensures
      var ty := Base(k);
      var d, l := Decode(Ordered(ty, false, false), s, little, tight), Decode(Sequence(ty), s, little, tight);
      && Alike(d, l)
      && (d.Done? ==>
            && d.value.Items? && l.value.Items? && (forall i :: 0 <= i < |d.value.vs| ==> d.value.vs[i].Num?)
            && (forall i, j :: 0 <= i < j < |d.value.vs| ==> d.value.vs[i].n < d.value.vs[j].n)
            && (forall e :: e in d.value.vs <==> e in l.value.vs))
  {
    hide Decode, Less, DecodeScalar;
    var ty := Ordered(Base(k), false, false);
    SetRead(Base(k), s, little, tight);
    DecodedFormed(ty, s, little, tight);
    var d := Decode(ty, s, little, tight);
    if d.Done? {
      FormedAt(Base(k), d.value.vs);
      forall i, j | 0 <= i < j < |d.value.vs| ensures d.value.vs[i].n < d.value.vs[j].n {
        NumbersAscend(k, d.value.vs[i].n, d.value.vs[j].n);
      }
    }
  }

  /** Any bytes read into a map: the keys strictly ascending, every key that was read, and
      with it the value that came first. */
  lemma MapRead(key: Ty, val: Ty, s: bytes, little: bool, tight: bool)
    requires Total(key)
    ensures
      var elem := Product(key, val);
      var d, l := Decode(Ordered(elem, true, false), s, little, tight), Decode(Sequence(elem), s, little, tight);
      && Alike(d, l)
      && (d.Done? ==>
            && d.value.Items? && l.value.Items?
            && (forall e :: e in d.value.vs || e in l.value.vs ==> e.Pair?)
            && (forall i, j :: 0 <= i < j < |d.value.vs| ==> Less(key, d.value.vs[i].first, d.value.vs[j].first))
            && (forall e :: e in d.value.vs <==>
                  exists i :: 0 <= i < |l.value.vs| && l.value.vs[i] == e
                    && forall j :: 0 <= j < i ==> l.value.vs[j].first != e.first))
  {
    var elem := Product(key, val);
    var ty := Ordered(elem, true, false);
    hide Decode, Less, Total, Holds;
    SortedRead(ty, s, little, tight);
    var d, l := Decode(ty, s, little, tight), Decode(Sequence(elem), s, little, tight);
    if d.Done? {
      DecodedFormed(ty, s, little, tight);
      DecodedFormed(Sequence(elem), s, little, tight);
      FormedAt(elem, d.value.vs);
      FormedAt(elem, l.value.vs);
      forall e
        ensures e in d.value.vs <==>
          exists i :: 0 <= i < |l.value.vs| && l.value.vs[i] == e
            && forall j :: 0 <= j < i ==> l.value.vs[j].first != e.first
      {
        HoldsFirst(ty, d.value.vs, l.value.vs, e);
      }
    }
  }
}
