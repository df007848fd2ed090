/** The base-128 variable-length integers of `ByteArray`: seven bits a byte, least
    significant group first, the top bit set on every byte but the last (unsigned
    LEB128, section 7.6 of the DWARF Version 5 standard). */
module Varint {
  import opened Bits
  import opened Bytes
  import opened Words

  predicate IsVarintWidth(w: Width) {
    w == W32 || w == W64
  }

  /** The length of the writer's scratch array, and the most bytes the reader takes. */
  function MaxGroups(w: Width): nat
    requires IsVarintWidth(w)
  {
    if w == W32 then 5 else 10
  }

  /** The bytes the writer emits. */
  function Encode(v: nat): (bs: bytes)
    ensures |bs| > 0
  {
    if v < 0x80 then [v] else [v % 0x80 + 0x80] + Encode(v / 0x80)
  }

  lemma EncodeMore(v: nat)
    requires v >= 0x80
    ensures Encode(v) == [v % 0x80 + 0x80] + Encode(v / 0x80)
  {
  }

  lemma EncodeLast(v: nat)
    requires v < 0x80
    ensures Encode(v) == [v]
  {
  }

  /** At most `n` groups taken from `s`, as an integer of any size. */
  function DecodeGroups(s: bytes, n: nat): (r: Parsed<nat>)
    ensures !r.Faults?
    decreases n
  {
    if n == 0 then Done(0, s)
    else if s == [] then Throws(s)
    else if s[0] < 0x80 then Done(s[0], s[1..])
    else
      var (v, rest) :- DecodeGroups(s[1..], n - 1);
      Done(s[0] - 0x80 + 0x80 * v, rest)
  }

  /** What the reader returns: the groups reduced to the word. */
  function Decode(s: bytes, w: Width): (r: Parsed<nat>)
    requires IsVarintWidth(w)
    ensures !r.Faults? && (r.Done? ==> IsUnsigned(r.value, w))
  {
    var (v, rest) :- DecodeGroups(s, MaxGroups(w));
    Done(ToUnsigned(v, w), rest)
  }

  function Pow128(k: nat): (p: nat)
    ensures p > 0
  {
    if k == 0 then 1 else 0x80 * Pow128(k - 1)
  }

  /** The first `k` seven-bit groups of `s`, weighted by the powers of 128. */
  function GroupSum(s: bytes, k: nat): nat
    requires k <= |s|
  {
    if k == 0 then 0 else s[0] % 0x80 + 0x80 * GroupSum(s[1..], k - 1)
  }

  /** A read of groups that goes on from what the earlier ones added up to. */
  function Resumed(later: Parsed<nat>, sum: nat, weight: nat): Parsed<nat> {
    match later
    case Done(v, rest) => Done(sum + weight * v, rest)
    case _ => later
  }

  /** Halfway through a read of `s`: `now` is unread, at most `n` groups are still to
      come, and the earlier ones add up to `sum`. */
  ghost predicate Reading(s: bytes, w: Width, now: bytes, n: nat, sum: nat, weight: nat) {
    IsVarintWidth(w) && DecodeGroups(s, MaxGroups(w)) == Resumed(DecodeGroups(now, n), sum, weight)
  }

  lemma ReadingStarts(s: bytes, w: Width)
    requires IsVarintWidth(w)
    ensures Reading(s, w, s, MaxGroups(w), 0, 1)
  {
  }

  /** What a group adds: its low seven bits, shifted into place. */
  function Part(weight: nat, group: byte): nat {
    weight * (if group < 0x80 then group else group - 0x80)
  }

  /** One more group read; it is the last if its top bit is clear. */
  lemma ReadingStep(s: bytes, w: Width, now: bytes, n: nat, sum: nat, weight: nat)
    requires Reading(s, w, now, n, sum, weight) && n > 0
    ensures now == [] ==> Decode(s, w) == Throws([])
    ensures now != [] && now[0] < 0x80 ==> Decode(s, w) == Done(ToUnsigned(sum + Part(weight, now[0]), w), now[1..])
    ensures now != [] && now[0] >= 0x80 ==>
      Reading(s, w, now[1..], n - 1, sum + Part(weight, now[0]), weight * 0x80)
  {
    hide ToUnsigned, Part;
    if now != [] {
      var later := DecodeGroups(now[1..], n - 1);
      Shifted(weight, now[0], if later.Done? then later.value else 0);
    }
  }

  lemma Shifted(weight: nat, group: byte, v: nat)
    ensures Part(weight, group) == weight * (if group < 0x80 then group else group - 0x80)
    ensures group >= 0x80 ==> weight * (group - 0x80 + 0x80 * v) == Part(weight, group) + weight * 0x80 * v
  {
  }

  /** Merging the shifted group into the groups read so far adds it: they are all below
      the lowest bit of the group, and what is shifted out of the word is cut off. */
  lemma Merged(sum: nat, group: nat, i: nat, w: Width)
    requires sum < Pow2(i) && i < 8 * Size(w)
    ensures Or(ToUnsigned(sum, w), ShiftLeft(group, i, w)) == ToUnsigned(sum + group * Pow2(i), w)
  {
    hide Pow2, Or, ToUnsigned, Modulus;
    var p, q := Pow2(i), Pow2(8 * Size(w) - i);
    ModulusIsPow2(w);
    Pow2Add(i, 8 * Size(w) - i);
    var high, turns := group % q, group / q;
    KeptBits(group, high, turns, p, q, w);
    Above(sum, high, p, q, w);
    WholeTurns(high * p, turns, w);
    WholeTurns(sum + high * p, turns, w);
    OrDisjoint(sum, high, i);
  }

  /** One turn of the reader's loop. */
  lemma GroupMerged(sum: nat, group: byte, i: nat, w: Width)
    requires sum < Pow2(i) && i < 8 * Size(w)
    ensures
      var low := if group < 0x80 then group else And(group, 0x7F);
      Or(ToUnsigned(sum, w), ShiftLeft(low, i, w)) == ToUnsigned(sum + Part(Pow2(i), group), w)
    ensures Pow2(i + 7) == Pow2(i) * 0x80 && sum + Part(Pow2(i), group) < Pow2(i + 7)
  {
    hide Pow2, Or, And, ToUnsigned, ShiftLeft, Size;
    Pow2Seven(i);
    var low := if group < 0x80 then group else group - 0x80;
    if group >= 0x80 {
      Pow2Seven(0);
      MaskKeepsLow(group - 0x80, 1, 7);
    }
    Merged(sum, low, i, w);
    LastGroup(sum, low, Pow2(i));
  }

  lemma LastGroup(sum: nat, low: nat, weight: nat)
    requires sum < weight && low < 0x80
    ensures low * weight == weight * low && sum + weight * low < weight * 0x80
  {
    assert weight * low <= weight * 0x7F;
  }

  lemma KeptBits(group: nat, high: nat, turns: nat, p: nat, q: nat, w: Width)
    requires q > 0 && p * q == Modulus(w) && high == group % q && turns == group / q
    ensures high < q && group * p == high * p + Modulus(w) * turns
  {
    hide Modulus;
    assert group == high + q * turns;
    assert group * p == high * p + p * q * turns;
  }

  lemma NextMultiple(high: nat, p: nat, q: nat)
    requires high < q
    ensures high * p + p <= p * q
  {
    assert (high + 1) * p <= q * p;
  }

  lemma Above(sum: nat, high: nat, p: nat, q: nat, w: Width)
    requires sum < p && high < q && p * q == Modulus(w)
    ensures ToUnsigned(sum, w) == sum && ToUnsigned(high * p, w) == high * p
    ensures ToUnsigned(sum + high * p, w) == sum + high * p
  {
    hide Modulus, ToUnsigned;
    NextMultiple(high, p, q);
    var top := high * p;
    OneTurn(sum, w);
    OneTurn(top, w);
    OneTurn(sum + top, w);
  }

  lemma ReadingEnds(s: bytes, w: Width, now: bytes, sum: nat, weight: nat)
    requires Reading(s, w, now, 0, sum, weight)
    ensures Decode(s, w) == Done(ToUnsigned(sum, w), now)
  {
  }

  lemma ReduceZero(w: Width)
    ensures ToUnsigned(0, w) == 0
  {
  }

  lemma WholeTurns(x: nat, q: nat, w: Width)
    ensures ToUnsigned(x + Modulus(w) * q, w) == ToUnsigned(x, w)
  {
    var m := Modulus(w);
    var y := x + m * q;
    assert y == m * (y / m) + y % m && x == m * (x / m) + x % m;
    assert m * (x / m + q) == m * (x / m) + m * q;
    SameQuotient(m, y / m, y % m, x / m + q, x % m);
  }

  /** Byte `i` is group `i` of the value, the least significant one first, with the top bit
      set on all but the last. */
  lemma {:induction false} GroupAt(v: nat, i: nat)
    requires i < |Encode(v)|
    ensures Encode(v)[i] == v / Pow128(i) % 128 + (if i < |Encode(v)| - 1 then 128 else 0)
  {
    if i == 0 {
      assert Pow128(0) == 1;
    } else {
      GroupAt(v / 0x80, i - 1);
      DivideTwice(v, 0x80, Pow128(i - 1));
    }
  }

  /** Group `k` counts by the power 128^k. */
  lemma {:induction false} GroupSumMore(s: bytes, k: nat)
    requires k < |s|
    ensures GroupSum(s, 0) == 0 && GroupSum(s, k + 1) == GroupSum(s, k) + Pow128(k) * (s[k] % 128)
    ensures Pow128(0) == 1 && Pow128(k + 1) == 128 * Pow128(k)
  {
    if k > 0 {
      GroupSumMore(s[1..], k - 1);
      Weighted(GroupSum(s[1..], k - 1), Pow128(k - 1), s[k] % 128);
    }
  }

  lemma Weighted(sum: nat, weight: nat, group: nat)
    ensures 0x80 * (sum + weight * group) == 0x80 * sum + (0x80 * weight) * group
  {
  }

  /** The number of bytes is the number of seven-bit groups of the value. */
  lemma {:induction false} EncodedSize(v: nat, k: nat)
    requires k > 0
    ensures |Encode(v)| <= k <==> v < Pow128(k)
  {
    if v >= 0x80 {
      if k == 1 {
        assert Pow128(1) == 0x80;
      } else {
        EncodedSize(v / 0x80, k - 1);
      }
    } else {
      PowAtLeast(k);
    }
  }

  lemma {:induction false} PowAtLeast(k: nat)
    requires k > 0
    ensures Pow128(k) >= 0x80
  {
    if k > 1 {
      PowAtLeast(k - 1);
    }
  }

  lemma {:induction false} PowMonotone(j: nat, k: nat)
    requires j <= k
    ensures Pow128(j) <= Pow128(k)
  {
    if j < k {
      PowMonotone(j, k - 1);
    }
  }

  /** The scratch array is never overrun, and its last byte is needed. */
  lemma WordFitsScratch(v: nat, w: Width)
    requires IsVarintWidth(w) && IsUnsigned(v, w)
    ensures v < Pow128(MaxGroups(w))
    ensures 1 <= |Encode(v)| <= MaxGroups(w)
  {
    assert Pow128(2) == 0x4000;
    assert Pow128(4) == 0x1000_0000;
    assert Pow128(5) == 0x8_0000_0000;
    assert Pow128(7) == 0x2_0000_0000_0000;
    assert Pow128(9) == 0x8000_0000_0000_0000;
    assert Pow128(10) == 0x40_0000_0000_0000_0000;
    EncodedSize(v, MaxGroups(w));
  }

  lemma {:induction false} GroupsRoundTrip(v: nat, n: nat, rest: bytes)
    requires |Encode(v)| <= n
    ensures DecodeGroups(Encode(v) + rest, n) == Done(v, rest)
  {
    var s := Encode(v) + rest;
    if v < 0x80 {
      assert s[1..] == rest;
    } else {
      GroupsRoundTrip(v / 0x80, n - 1, rest);
      assert s[1..] == Encode(v / 0x80) + rest;
    }
  }

  /** The reader gives back every word written, wherever more bytes follow. */
  lemma RoundTrip(v: nat, w: Width, rest: bytes)
    requires IsVarintWidth(w) && IsUnsigned(v, w)
    ensures Decode(Encode(v) + rest, w) == Done(v, rest)
  {
    WordFitsScratch(v, w);
    GroupsRoundTrip(v, MaxGroups(w), rest);
    OneTurn(v, w);
  }

  /** Success depends on the consumed bytes alone. */
  lemma {:induction false} GroupsLocal(s: bytes, n: nat, more: bytes)
    requires DecodeGroups(s, n).Done?
    ensures DecodeGroups(s + more, n) == Done(DecodeGroups(s, n).value, DecodeGroups(s, n).rest + more)
  {
    if n == 0 {
    } else if s[0] < 0x80 {
      assert (s + more)[1..] == s[1..] + more;
    } else {
      GroupsLocal(s[1..], n - 1, more);
      assert (s + more)[1..] == s[1..] + more;
    }
  }

  lemma Local(s: bytes, w: Width, more: bytes)
    requires IsVarintWidth(w) && Decode(s, w).Done?
    ensures Decode(s + more, w) == Done(Decode(s, w).value, Decode(s, w).rest + more)
  {
    GroupsLocal(s, MaxGroups(w), more);
  }

  /** How many bytes a successful read of at most `n` groups took, and their sum. */
  lemma {:induction false} GroupsAreSummed(s: bytes, n: nat) returns (k: nat)
    requires n > 0 && DecodeGroups(s, n).Done?
    ensures 1 <= k <= n && k <= |s|
    ensures DecodeGroups(s, n) == Done(GroupSum(s, k), s[k..])
    ensures GroupSum(s, k) < Pow128(k)
    ensures forall i :: 0 <= i < k - 1 ==> s[i] >= 0x80
    ensures k < n ==> s[k - 1] < 0x80
  {
    if s[0] < 0x80 || n == 1 {
      k := 1;
      assert GroupSum(s[1..], 0) == 0;
      assert DecodeGroups(s[1..], 0) == Done(0, s[1..]);
      assert Pow128(1) == 0x80;
    } else {
      var j := GroupsAreSummed(s[1..], n - 1);
      k := j + 1;
      assert s[1..][j..] == s[k..];
      forall i | 0 <= i < k - 1
        ensures s[i] >= 0x80
      {
        assert i > 0 ==> s[i] == s[1..][i - 1];
      }
      assert s[k - 1] == s[1..][j - 1];
    }
  }

  /** On any input the reader takes between one byte and the width's maximum, stops
      at the first byte below 0x80, and returns the weighted sum of the groups
      reduced to the word; writing that word back never takes more bytes. */
  lemma AnyInput(s: bytes, w: Width) returns (k: nat)
    requires IsVarintWidth(w) && Decode(s, w).Done?
    ensures 1 <= k <= MaxGroups(w) && k <= |s|
    ensures Decode(s, w) == Done(ToUnsigned(GroupSum(s, k), w), s[k..])
    ensures forall i :: 0 <= i < k - 1 ==> s[i] >= 0x80
    ensures k < MaxGroups(w) ==> s[k - 1] < 0x80
    ensures |Encode(Decode(s, w).value)| <= k
  {
    k := GroupsAreSummed(s, MaxGroups(w));
    var sum := GroupSum(s, k);
    assert ToUnsigned(sum, w) <= sum by {
      ReducingShrinks(sum, w);
    }
    EncodedSize(ToUnsigned(sum, w), k);
  }

  lemma ReducingShrinks(v: nat, w: Width)
    ensures ToUnsigned(v, w) <= v
  {
    var m := Modulus(w);
    assert v == m * (v / m) + v % m;
    assert v / m >= 0;
    assert m * (v / m) >= 0;
  }

  /** A read throws exactly when the input ends before its group sequence does. */
  lemma {:induction false} GroupsThrow(s: bytes, n: nat)
    ensures DecodeGroups(s, n).Throws? <==> |s| < n && forall i :: 0 <= i < |s| ==> s[i] >= 0x80
    ensures DecodeGroups(s, n).Throws? ==> DecodeGroups(s, n).rest == []
  {
    if n == 0 || s == [] {
    } else if s[0] < 0x80 {
    } else {
      GroupsThrow(s[1..], n - 1);
      assert (forall i :: 0 <= i < |s| ==> s[i] >= 0x80) <==> (forall i :: 0 <= i < |s[1..]| ==> s[1..][i] >= 0x80) by {
        if forall i :: 0 <= i < |s[1..]| ==> s[1..][i] >= 0x80 {
          forall i | 0 <= i < |s|
            ensures s[i] >= 0x80
          {
            assert i > 0 ==> s[i] == s[1..][i - 1];
          }
        } else {
          var i :| 0 <= i < |s[1..]| && s[1..][i] < 0x80;
          assert s[i + 1] < 0x80;
        }
      }
    }
  }

  /** A signed word takes at most `k` bytes exactly in the range that `7 * k` bits
      of two's complement hold; this is what ZigZag is for. */
  lemma SignedSize(v: int, w: Width, k: nat)
    requires IsVarintWidth(w) && IsSigned(v, w) && k > 0
    ensures |Encode(EncodeZigzag(v, w))| <= k <==> -(Pow128(k) / 2) <= v < Pow128(k) / 2
  {
    hide *;
    Pow128Even(k);
    EncodeZigzagValue(v, w);
    EncodedSize(EncodeZigzag(v, w), k);
  }

  lemma Pow128Even(k: nat)
    requires k > 0
    ensures Pow128(k) % 2 == 0
  {
    assert Pow128(k) == 2 * (0x40 * Pow128(k - 1));
  }
}
