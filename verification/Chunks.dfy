/** The memory of a `ByteArray` as plain values: a list of chunks of one size, and
    the flat byte string they spell. */
module Chunks {
  import opened Bytes
  import Words

  function Flat(cs: seq<bytes>): bytes {
    if cs == [] then [] else cs[0] + Flat(cs[1..])
  }

  /** The number of bytes in `k` chunks. */
  function Span(base: nat, k: nat): nat {
    if k == 0 then 0 else Span(base, k - 1) + base
  }

  predicate Uniform(cs: seq<bytes>, base: nat) {
    forall i :: 0 <= i < |cs| ==> |cs[i]| == base
  }

  lemma {:induction false} FlatAppend(a: seq<bytes>, b: seq<bytes>)
    ensures Flat(a + b) == Flat(a) + Flat(b)
  {
    if a == [] {
      assert a + b == b;
    } else {
      FlatAppend(a[1..], b);
      assert (a + b)[0] == a[0] && (a + b)[1..] == a[1..] + b;
      assert a[0] + (Flat(a[1..]) + Flat(b)) == a[0] + Flat(a[1..]) + Flat(b);
    }
  }

  lemma FlatOne(c: bytes)
    ensures Flat([c]) == c
  {
    assert Flat([c]) == c + Flat([]);
  }

  lemma FlatNext(cs: seq<bytes>, i: nat)
    requires i < |cs|
    ensures Flat(cs[..i + 1]) == Flat(cs[..i]) + cs[i]
  {
    assert cs[..i + 1] == cs[..i] + [cs[i]];
    FlatAppend(cs[..i], [cs[i]]);
    FlatOne(cs[i]);
  }

  lemma FlatPrefix(cs: seq<bytes>, n: nat)
    requires n <= |cs|
    ensures Flat(cs[..n]) <= Flat(cs)
  {
    FlatAppend(cs[..n], cs[n..]);
    assert cs[..n] + cs[n..] == cs;
  }

  lemma {:induction false} FlatLength(cs: seq<bytes>, base: nat)
    requires Uniform(cs, base)
    ensures |Flat(cs)| == Span(base, |cs|)
  {
    if cs == [] {
    } else {
      var last := |cs| - 1;
      FlatLength(cs[..last], base);
      assert cs == cs[..last] + [cs[last]];
      FlatAppend(cs[..last], [cs[last]]);
      FlatOne(cs[last]);
    }
  }

  /** Chunk `k` lies at `Span(base, k)` of the flat string. */
  lemma FlatAround(cs: seq<bytes>, base: nat, k: nat)
    requires Uniform(cs, base) && k < |cs|
    ensures |Flat(cs[..k])| == Span(base, k)
    ensures Flat(cs) == Flat(cs[..k]) + cs[k] + Flat(cs[k + 1..])
  {
    FlatLength(cs[..k], base);
    FlatAppend(cs[..k], cs[k..]);
    assert cs == cs[..k] + cs[k..];
    assert cs[k..][1..] == cs[k + 1..];
  }

  lemma FlatSlice(cs: seq<bytes>, base: nat, k: nat, off: nat, n: nat)
    requires Uniform(cs, base) && k < |cs| && off + n <= base
    ensures Span(base, k) + off + n <= |Flat(cs)|
    ensures Flat(cs)[Span(base, k) + off..Span(base, k) + off + n] == cs[k][off..off + n]
  {
    FlatAround(cs, base, k);
    var pre := Flat(cs[..k]);
    assert Flat(cs)[|pre|..|pre| + base] == cs[k];
  }

  lemma FlatSplice(cs: seq<bytes>, base: nat, k: nat, off: nat, bs: bytes)
    requires Uniform(cs, base) && k < |cs| && off + |bs| <= base
    ensures Span(base, k) + off + |bs| <= |Flat(cs)|
    ensures Flat(cs[k := Splice(cs[k], off, bs)]) == Splice(Flat(cs), Span(base, k) + off, bs)
  {
    hide Flat, Span, Splice;
    var pre, post := Flat(cs[..k]), Flat(cs[k + 1..]);
    var ds := cs[k := Splice(cs[k], off, bs)];
    assert Flat(ds) == pre + ds[k] + post by {
      FlatAround(ds, base, k);
      assert ds[..k] == cs[..k] && ds[k + 1..] == cs[k + 1..];
    }
    assert Flat(cs) == pre + cs[k] + post && |pre| == Span(base, k) by {
      FlatAround(cs, base, k);
    }
    SpliceInside(Flat(cs), Flat(ds), pre, cs[k], post, off, bs);
  }

  lemma SpliceInside(m: bytes, m': bytes, pre: bytes, mid: bytes, post: bytes, off: nat, bs: bytes)
    requires off + |bs| <= |mid|
    requires m == pre + mid + post && m' == pre + Splice(mid, off, bs) + post
    ensures m' == Splice(m, |pre| + off, bs)
  {
    assert m[..|pre| + off] == pre + mid[..off];
    assert m[|pre| + off + |bs|..] == mid[off + |bs|..] + post;
  }

  // ---- which chunk a position falls in ----

  lemma {:induction false} SpanMonotone(base: nat, a: nat, b: nat)
    requires a <= b
    ensures Span(base, a) <= Span(base, b)
  {
    if a < b {
      SpanMonotone(base, a, b - 1);
    }
  }

  lemma SpanCancel(base: nat, a: nat, b: nat)
    requires Span(base, a) < Span(base, b)
    ensures a < b
  {
    if b <= a {
      SpanMonotone(base, b, a);
    }
  }

  lemma {:induction false} SpanIsProduct(base: nat, k: nat)
    ensures Span(base, k) == base * k
  {
    if k > 0 {
      SpanIsProduct(base, k - 1);
    }
  }

  /** Chunk index and offset are the quotient and the remainder of the position. */
  lemma Located(base: nat, k: nat, p: nat)
    requires Span(base, k) <= p < Span(base, k) + base
    ensures p / base == k && p % base == p - Span(base, k)
  {
    SpanIsProduct(base, k);
    Words.SameQuotient(base, p / base, p % base, k, p - Span(base, k));
  }

  /** Rounding up takes enough chunks, and not one too many. */
  lemma RoundUp(n: nat, base: nat) returns (count: nat)
    requires base > 0
    ensures count == (n + base - 1) / base
    ensures n <= Span(base, count) < n + base
  {
    var m := n + base - 1;
    count := m / base;
    assert m == base * (m / base) + m % base;
    SpanIsProduct(base, count);
  }
}
