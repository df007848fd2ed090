/** Byte strings, and what a read from a byte stream can come to. */
module Bytes {

  type byte = x: int | 0 <= x < 256

  type bytes = seq<byte>

  datatype Option<+T> = None | Some(value: T)

  /** The three ways a read of the buffer ends, each with the bytes still unread:
      a value; `std::out_of_range` (or a failed allocation of the string) thrown
      to the caller; or the dereference of the null chunk pointer that a read of
      length zero makes when the cursor stands at the very end of the last chunk. */
  datatype Parsed<+T> =
    | Done(value: T, rest: bytes)
    | Throws(rest: bytes)
    | Faults(rest: bytes)
  {
    predicate IsFailure() {
      !Done?
    }

    function PropagateFailure<U>(): Parsed<U>
      requires IsFailure()
    {
      if Throws? then Throws(rest) else Faults(rest)
    }

    function Extract(): (T, bytes)
      requires Done?
    {
      (value, rest)
    }

    function Result(): Read<T> {
      match this
      case Done(v, _) => Value(v)
      case Throws(_) => OutOfRange
      case Faults(_) => NullChunk
    }
  }

  /** What a call that read the buffer gives its caller. */
  datatype Read<+T> = Value(value: T) | OutOfRange | NullChunk

  /** `n` raw bytes. `tight` says that the buffer ends where its last chunk ends. */
  function Fetch(s: bytes, n: nat, tight: bool): Parsed<bytes> {
    if n > |s| then Throws(s)
    else if n == 0 && s == [] && tight then Faults(s)
    else Done(s[..n], s[n..])
  }

  /** `m` with the bytes from `at` on replaced by `bs`. */
  function Splice(m: bytes, at: nat, bs: bytes): (r: bytes)
    requires at + |bs| <= |m|
    ensures |r| == |m|
  {
    m[..at] + bs + m[at + |bs|..]
  }

  lemma SpliceNothing(m: bytes, at: nat)
    requires at <= |m|
    ensures Splice(m, at, []) == m
  {
  }

  /** Two adjacent overwrites are one. */
  lemma SpliceTwice(m: bytes, at: nat, a: bytes, b: bytes, ab: bytes)
    requires at + |a| + |b| <= |m| && ab == a + b
    ensures Splice(Splice(m, at, a), at + |a|, b) == Splice(m, at, ab)
  {
    var once := Splice(m, at, a);
    assert once[..at + |a|] == m[..at] + a;
    assert once[at + |a| + |b|..] == m[at + |a| + |b|..];
  }

  /** Overwriting with `buf` piece by piece: the piece `[i, j)` after all before it. */
  lemma SpliceNext(m: bytes, at: nat, buf: bytes, i: nat, j: nat, m1: bytes, m2: bytes)
    requires i <= j <= |buf| && at + |buf| <= |m|
    requires m1 == Splice(m, at, buf[..i])
    requires m2 == Splice(m1, at + i, buf[i..j])
    ensures m2 == Splice(m, at, buf[..j])
  {
    assert buf[..j] == buf[..i] + buf[i..j];
    assert m1[..at + i] == m[..at] + buf[..i];
    assert m1[at + j..] == m[at + j..];
  }

  /** An overwrite after growing, seen from before. */
  lemma SpliceWrites(m: bytes, grown: bytes, at: nat, bs: bytes)
    requires at <= |m| <= |grown| && at + |bs| <= |grown| && grown[..|m|] == m
    ensures Written(m, Splice(grown, at, bs), at, bs)
  {
    assert grown[..at] == grown[..|m|][..at];
    if at + |bs| <= |m| {
      assert Splice(grown, at, bs)[at + |bs|..|m|] == grown[..|m|][at + |bs|..];
    }
  }

  /** `bs` has been written at `at` and nothing else of `m` changed; `m'` may be longer. */
  ghost predicate Written(m: bytes, m': bytes, at: nat, bs: bytes) {
    && at <= |m| <= |m'| && at + |bs| <= |m'|
    && m'[..at] == m[..at]
    && m'[at..at + |bs|] == bs
    && (at + |bs| <= |m| ==> m'[at + |bs|..|m|] == m[at + |bs|..])
  }

  lemma WrittenTwice(m: bytes, m1: bytes, m2: bytes, at: nat, a: bytes, b: bytes)
    requires Written(m, m1, at, a) && Written(m1, m2, at + |a|, b)
    ensures Written(m, m2, at, a + b)
  {
    assert m2[..at] == m2[..at + |a|][..at] && m1[..at] == m1[..at + |a|][..at];
    assert m2[at..at + |a|] == m2[..at + |a|][at..] && m1[at..at + |a|] == m1[..at + |a|][at..];
    var end := at + |a| + |b|;
    assert m2[at..end] == m2[at..at + |a|] + m2[at + |a|..end];
    if end <= |m| {
      assert m2[end..|m|] == m2[end..|m1|][..|m| - end];
      assert m1[end..|m|] == m1[end..][..|m| - end];
      assert m1[end..|m|] == m1[at + |a|..|m|][|b|..];
    }
  }

  function Reverse(s: bytes): (r: bytes)
    ensures |r| == |s|
    ensures forall i :: 0 <= i < |s| ==> r[i] == s[|s| - 1 - i]
  {
    if s == [] then [] else Reverse(s[1..]) + [s[0]]
  }

  lemma ReverseReverse(s: bytes)
    ensures Reverse(Reverse(s)) == s
  {
  }

  function Min(a: nat, b: nat): nat {
    if a <= b then a else b
  }

  function Max(a: nat, b: nat): nat {
    if a <= b then b else a
  }
}
