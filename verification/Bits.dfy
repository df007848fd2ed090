/** The bit operators of unsigned words, bit by bit, and what they are where the source
    uses them. */
module Bits {

  function Pow2(k: nat): (p: nat)
    ensures p > 0
  {
    if k == 0 then 1 else 2 * Pow2(k - 1)
  }

  function Or(a: nat, b: nat): nat {
    if a == 0 && b == 0 then 0 else 2 * Or(a / 2, b / 2) + (if a % 2 == 1 || b % 2 == 1 then 1 else 0)
  }

  function And(a: nat, b: nat): nat {
    if a == 0 || b == 0 then 0 else 2 * And(a / 2, b / 2) + (if a % 2 == 1 && b % 2 == 1 then 1 else 0)
  }

  function Xor(a: nat, b: nat): nat {
    if a == 0 && b == 0 then 0 else 2 * Xor(a / 2, b / 2) + (if a % 2 != b % 2 then 1 else 0)
  }

  function ShiftRight(a: nat, k: nat): nat {
    if k == 0 then a else ShiftRight(a / 2, k - 1)
  }

  /** A shift drops the low bits. */
  lemma {:induction false} ShiftDropsLow(low: nat, q: nat, k: nat)
    requires low < Pow2(k)
    ensures ShiftRight(low + q * Pow2(k), k) == q
  {
    if k > 0 {
      hide Pow2;
      HalfMultiple(q, k);
      ShiftDropsLow(low / 2, q, k - 1);
      var high := q * Pow2(k - 1);
      assert (low + 2 * high) / 2 == low / 2 + high;
    }
  }

  lemma {:induction false} Pow2Add(i: nat, j: nat)
    ensures Pow2(i + j) == Pow2(i) * Pow2(j)
  {
    if j > 0 {
      Pow2Add(i, j - 1);
      assert Pow2(i) * Pow2(j) == 2 * (Pow2(i) * Pow2(j - 1));
    }
  }

  lemma Pow2Double(k: nat, p: nat)
    requires Pow2(k) == p
    ensures Pow2(2 * k) == p * p
  {
    Pow2Add(k, k);
  }

  lemma Pow2Two()
    ensures Pow2(2) == 4
  {
  }

  lemma WordPowers()
    ensures Pow2(8) == 0x100 && Pow2(16) == 0x1_0000
    ensures Pow2(32) == 0x1_0000_0000 && Pow2(64) == 0x1_0000_0000_0000_0000
  {
    hide *;
    Pow2Two();
    Pow2Double(2, 4);
    Pow2Double(4, 0x10);
    Pow2Double(8, 0x100);
    Pow2Double(16, 0x1_0000);
    Pow2Double(32, 0x1_0000_0000);
  }

  lemma Pow2Seven(i: nat)
    ensures Pow2(7) == 0x80 && Pow2(i + 7) == Pow2(i) * 0x80
  {
    assert Pow2(3) == 8;
    assert Pow2(5) == 32;
    Pow2Add(i, 7);
  }

  lemma {:induction false} OrZero(a: nat)
    ensures Or(0, a) == Or(a, 0) == a
  {
    if a > 0 {
      OrZero(a / 2);
    }
  }

  lemma OrHalves(a: nat, b: nat)
    ensures Or(a, b) == 2 * Or(a / 2, b / 2) + (if a % 2 == 1 || b % 2 == 1 then 1 else 0)
  {
    OrZero(0);
  }

  lemma AndHalves(a: nat, b: nat)
    ensures And(a, b) == 2 * And(a / 2, b / 2) + (if a % 2 == 1 && b % 2 == 1 then 1 else 0)
  {
  }

  lemma XorHalves(a: nat, b: nat)
    ensures Xor(a, b) == 2 * Xor(a / 2, b / 2) + (if a % 2 != b % 2 then 1 else 0)
  {
  }

  /** A multiple of a power of two, halved. */
  lemma HalfMultiple(q: nat, k: nat)
    requires k > 0
    ensures Pow2(k) == 2 * Pow2(k - 1) && q * Pow2(k) == 2 * (q * Pow2(k - 1))
  {
  }

  /** Merging bits with bits that all lie above them is adding. */
  lemma {:induction false} OrDisjoint(low: nat, q: nat, k: nat)
    requires low < Pow2(k)
    ensures Or(low, q * Pow2(k)) == low + q * Pow2(k)
  {
    if k == 0 {
      OrZero(q);
    } else {
      hide Or, Pow2;
      HalfMultiple(q, k);
      OrDisjoint(low / 2, q, k - 1);
      var high := q * Pow2(k - 1);
      OrHalves(low, 2 * high);
    }
  }

  /** A mask of ones keeps the low bits. */
  lemma {:induction false} MaskKeepsLow(low: nat, q: nat, k: nat)
    requires low < Pow2(k)
    ensures And(low + q * Pow2(k), Pow2(k) - 1) == low
  {
    if k > 0 {
      hide And, Pow2;
      HalfMultiple(q, k);
      MaskKeepsLow(low / 2, q, k - 1);
      var high, ones := q * Pow2(k - 1), Pow2(k - 1) - 1;
      AndHalves(low + 2 * high, 2 * ones + 1);
      assert (low + 2 * high) / 2 == low / 2 + high;
    }
  }

  /** The exclusive or with nothing keeps a word, with all ones it complements it. */
  lemma {:induction false} XorIsChoice(a: nat, k: nat)
    requires a < Pow2(k)
    ensures Xor(a, 0) == a && Xor(a, Pow2(k) - 1) == Pow2(k) - 1 - a
  {
    if k > 0 {
      hide Xor, Pow2;
      HalfMultiple(1, k);
      XorIsChoice(a / 2, k - 1);
      XorHalves(a, 0);
      var ones := Pow2(k - 1) - 1;
      XorHalves(a, 2 * ones + 1);
      assert (2 * ones + 1) / 2 == ones;
    }
  }

  /** The byte that the varint writer stores for a group with more behind it, and what it
      goes on with. */
  lemma GroupByte(v: nat)
    ensures Or(And(v, 0x7F), 0x80) == v % 0x80 + 0x80 && ShiftRight(v, 7) == v / 0x80
  {
    hide Or, And, ShiftRight, Pow2;
    Pow2Seven(0);
    assert v == v % 0x80 + v / 0x80 * 0x80;
    MaskKeepsLow(v % 0x80, v / 0x80, 7);
    OrDisjoint(v % 0x80, 1, 7);
    ShiftDropsLow(v % 0x80, v / 0x80, 7);
  }

  lemma LowBit(v: nat)
    ensures And(v, 1) == v % 2
  {
    assert v == v % 2 + v / 2 * 2;
    assert Pow2(1) == 2;
    MaskKeepsLow(v % 2, v / 2, 1);
  }
}
