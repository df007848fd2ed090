/** `LogStream`: integers to decimal text, without negating them. */
module LogStreams {
  import opened Bytes
  import opened Buffers
  import opened Words

  const K_MAXNUMERIC_SIZE: nat := 32
  const MINUS: byte := 45

  /** "9876543210123456789": the digits of -9 to 9. */
  const DIGITS: bytes := [57, 56, 55, 54, 53, 52, 51, 50, 49, 48, 49, 50, 51, 52, 53, 54, 55, 56, 57]

  // `/` and `%` by 10 truncate towards zero.

  function Quotient10(i: int): int {
    if i >= 0 then i / 10 else -(-i / 10)
  }

  function Remainder10(i: int): int {
    i - 10 * Quotient10(i)
  }

  /** `ZERO[d]`, from the middle of the table. */
  function Glyph(d: int): byte
    requires -9 <= d <= 9
  {
    DIGITS[9 + d]
  }

  // ---- numerals ----

  function Magnitude(v: int): nat {
    if v < 0 then -v else v
  }

  function Digits(n: nat): (r: bytes)
    ensures |r| >= 1
  {
    if n < 10 then [48 + n] else Digits(n / 10) + [48 + n % 10]
  }

  /** The decimal text of an integer. */
  function Text(v: int): bytes {
    (if v < 0 then [MINUS] else []) + Digits(Magnitude(v))
  }

  /** How a text of digits is read, from the left. */
  function Horner(ds: bytes): int {
    if ds == [] then 0 else 10 * Horner(ds[..|ds| - 1]) + ds[|ds| - 1] - 48
  }

  function Read(text: bytes): int {
    if text != [] && text[0] == MINUS then -Horner(text[1..]) else Horner(text)
  }

  predicate AreDigits(ds: bytes) {
    ds != [] && (forall i :: 0 <= i < |ds| ==> 48 <= ds[i] <= 57) && (ds[0] == 48 ==> |ds| == 1)
  }

  /** Digits without a leading zero, a minus sign before them unless they are "0". */
  predicate IsNumeral(text: bytes) {
    text != [] &&
    if text[0] == MINUS then AreDigits(text[1..]) && text[1] != 48 else AreDigits(text)
  }

  lemma {:induction false} DigitsRead(n: nat)
    ensures AreDigits(Digits(n)) && Horner(Digits(n)) == n && (Digits(n)[0] == 48 ==> n == 0)
  {
    if n < 10 {
      assert Digits(n)[..0] == [];
    } else {
      DigitsRead(n / 10);
      assert Digits(n)[..|Digits(n)| - 1] == Digits(n / 10);
    }
  }

  lemma {:induction false} HornerBound(ds: bytes)
    requires AreDigits(ds)
    ensures Horner(ds) >= 0 && (ds[0] != 48 ==> Horner(ds) >= 1)
  {
    var init := ds[..|ds| - 1];
    if init == [] {
      assert Horner(init) == 0;
    } else {
      assert init[0] == ds[0];
      HornerBound(init);
    }
  }

  lemma {:induction false} DigitsUnique(ds: bytes)
    requires AreDigits(ds)
    ensures Horner(ds) >= 0 && Digits(Horner(ds)) == ds
  {
    var init, last := ds[..|ds| - 1], ds[|ds| - 1];
    HornerBound(ds);
    if init == [] {
      assert Horner(init) == 0;
    } else {
      assert init[0] == ds[0];
      HornerBound(init);
      DigitsUnique(init);
      assert Horner(ds) / 10 == Horner(init) && Horner(ds) % 10 == last - 48;
      assert ds == init + [last];
    }
  }

  /** The text reads back as the value, and among the texts that do it is the only one
      that is written as numerals are. */
  lemma TextReads(v: int)
    ensures IsNumeral(Text(v)) && Read(Text(v)) == v
    ensures (Text(v)[0] == MINUS) <==> v < 0
  {
    hide Digits, Horner;
    DigitsRead(Magnitude(v));
    if v < 0 {
      assert Text(v)[1..] == Digits(Magnitude(v));
    } else {
      assert Text(v) == Digits(v);
    }
  }

  lemma TextUnique(text: bytes)
    ensures IsNumeral(text) <==> text == Text(Read(text))
  {
    TextReads(Read(text));
    if IsNumeral(text) {
      if text[0] == MINUS {
        DigitsUnique(text[1..]);
        HornerBound(text[1..]);
        assert text == [MINUS] + text[1..];
      } else {
        DigitsUnique(text);
      }
    }
  }

  function Pow10(k: nat): (p: nat)
    ensures p > 0
  {
    if k == 0 then 1 else 10 * Pow10(k - 1)
  }

  lemma {:induction false} NumDigits(n: nat, k: nat)
    requires k >= 1
    ensures |Digits(n)| <= k <==> n < Pow10(k)
  {
    if n < 10 {
      Pow10Grows(k);
    } else if k > 1 {
      NumDigits(n / 10, k - 1);
    } else {
      assert Pow10(1) == 10 * Pow10(0);
      assert |Digits(n)| == |Digits(n / 10)| + 1;
    }
  }

  lemma {:induction false} Pow10Grows(k: nat)
    requires k >= 1
    ensures Pow10(k) >= 10
  {
    if k > 1 {
      Pow10Grows(k - 1);
    } else {
      assert Pow10(0) == 1;
    }
  }

  /** At most 20 characters for any integer of up to 64 bits, signed or not. */
  lemma TextLength(v: int)
    requires -0x8000_0000_0000_0000 <= v < 0x1_0000_0000_0000_0000
    ensures 1 <= |Text(v)| <= 20
  {
    assert Pow10(5) == 10_0000;
    assert Pow10(10) == 100_0000_0000;
    assert Pow10(15) == 1000_0000_0000_0000;
    assert Pow10(19) == 1000_0000_0000_0000_0000;
    assert Pow10(20) == 1_0000_0000_0000_0000_0000;
    NumDigits(Magnitude(v), if v < 0 then 19 else 20);
  }

  /** The digits stand in order, the last one for the ones, behind a minus sign (45). */
  lemma {:induction false} DigitAt(n: nat, i: nat)
    requires i < |Digits(n)|
    ensures Digits(n)[|Digits(n)| - 1 - i] == 48 + n / Pow10(i) % 10
  {
    if i == 0 {
      assert Pow10(0) == 1;
    } else {
      DigitAt(n / 10, i - 1);
      DivideTwice(n, 10, Pow10(i - 1));
    }
  }

  lemma TextAt(v: int, i: nat)
    ensures
      var n := if v < 0 then -v else v;
      var digits := if v < 0 then |Text(v)| - 1 else |Text(v)|;
      && (v < 0 ==> Text(v)[0] == 45) && digits > 0
      && (i < digits ==> Text(v)[|Text(v)| - 1 - i] == 48 + n / Pow10(i) % 10)
  {
    var n := if v < 0 then -v else v;
    if i < |Digits(n)| {
      DigitAt(n, i);
    }
  }

  // ---- writing them ----

  /** `std::reverse` of the first `n` bytes. */
  method ReverseFront(a: array<byte>, n: nat)
    requires n <= a.Length
    modifies a
    ensures a[..n] == Reverse(old(a[..n]))
    ensures forall k :: n <= k < a.Length ==> a[k] == old(a[k])
  {
    var lo, hi := 0, n;
    while lo < hi
      invariant 0 <= lo && lo + hi == n && lo <= hi + 1
      invariant forall k :: 0 <= k < a.Length && (lo <= k < hi || n <= k) ==> a[k] == old(a[k])
      invariant forall k :: 0 <= k < lo || hi <= k < n ==> a[k] == old(a[n - 1 - k])
    {
      hi := hi - 1;
      if lo != hi {
        a[lo], a[hi] := a[hi], a[lo];
      }
      lo := lo + 1;
    }
  }

  /** The digit of the truncated remainder, taken from the mirrored table. */
  lemma DigitOf(i: int)
    ensures -9 <= Remainder10(i) <= 9
    ensures Glyph(Remainder10(i)) == 48 + Magnitude(i) % 10
    ensures Magnitude(Quotient10(i)) == Magnitude(i) / 10
  {
    assert Magnitude(Remainder10(i)) == Magnitude(i) % 10;
  }

  lemma DigitsStep(n: nat)
    ensures Digits(n) == (if n < 10 then [] else Digits(n / 10)) + [48 + n % 10]
  {
  }

  /** One turn of the loop: the last digit of what is left, and what is left then. */
  lemma OneDigit(i: int)
    ensures -9 <= Remainder10(i) <= 9
    ensures
      var q := Quotient10(i);
      && Digits(Magnitude(i)) == (if q == 0 then [] else Digits(Magnitude(q))) + [Glyph(Remainder10(i))]
      && (q != 0 ==> Magnitude(q) < Magnitude(i))
  {
    DigitOf(i);
    DigitsStep(Magnitude(i));
  }

  lemma ReverseSnoc(s: bytes, b: byte)
    ensures Reverse(s + [b]) == [b] + Reverse(s)
  {
  }

  method Convert(buf: array<byte>, val: int) returns (len: nat)
    requires -0x8000_0000_0000_0000 <= val < 0x1_0000_0000_0000_0000 && buf.Length >= 21
    modifies buf
    ensures 1 <= len <= 20 && buf[..len] == Text(val) && buf[len] == 0
    ensures forall k :: len < k < buf.Length ==> buf[k] == old(buf[k])
  {
    hide Digits, Glyph, Quotient10, Remainder10, Reverse, Magnitude;
    ghost var mag := Magnitude(val);
    TextLength(val);
    var i, p := val, 0;
    while true
      invariant 0 <= p && p + |Digits(Magnitude(i))| == |Digits(mag)|
      invariant p > 0 ==> i != 0
      invariant Digits(mag) == Digits(Magnitude(i)) + Reverse(buf[..p])
      invariant forall k :: p <= k < buf.Length ==> buf[k] == old(buf[k])
      decreases Magnitude(i)
    {
      OneDigit(i);
      ghost var before := buf[..p];
      var d := Remainder10(i);
      i := Quotient10(i);
      buf[p] := Glyph(d);
      p := p + 1;
      assert buf[..p] == before + [Glyph(d)];
      ReverseSnoc(before, Glyph(d));
      if i == 0 {
        break;
      }
    }
    assert Digits(mag) == Reverse(buf[..p]);
    ghost var digits := buf[..p];
    if val < 0 {
      buf[p] := MINUS;
      p := p + 1;
      assert buf[..p] == digits + [MINUS];
      ReverseSnoc(digits, MINUS);
    }
    buf[p] := 0;
    ReverseFront(buf, p);
    return p;
  }

  class LogStream {
    const buffer: Buffer

    ghost predicate Valid()
      reads this, buffer, buffer.buffer
    {
      buffer.Valid() && buffer.SIZE == LOG_BUFFER_SIZE
    }

    constructor ()
      ensures Valid() && buffer.text == [] && fresh(buffer) && fresh(buffer.buffer)
    {
      buffer := new Buffer(LOG_BUFFER_SIZE);
    }

    /** `operator<<` of any integer type: all of the numeral, or nothing when there may
        not be room for one. */
    method FormatInteger(val: int)
      requires Valid() && -0x8000_0000_0000_0000 <= val < 0x1_0000_0000_0000_0000
      modifies buffer, buffer.buffer
      ensures Valid()
      ensures
        buffer.text ==
        if 2048 - |old(buffer.text)| >= 32 then old(buffer.text) + Text(val)
        else old(buffer.text)
    {
      if buffer.Avail() >= K_MAXNUMERIC_SIZE {
        var buf := new byte[K_MAXNUMERIC_SIZE](_ => 0);
        var len := Convert(buf, val);
        var ok := buffer.Append(buf[..len]);
      }
    }
  }
}
