/** Scatter/gather lists (`struct iovec`) and what the kernel does with them. */
module IoVecs {
  import opened Bytes
  import opened Chunks

  datatype IoVec = IoVec(block: array<byte>, offset: nat, len: nat)

  predicate InBounds(segs: seq<IoVec>) {
    forall i :: 0 <= i < |segs| ==> segs[i].offset + segs[i].len <= segs[i].block.Length
  }

  /** No byte of memory is in two segments. */
  predicate Disjoint(segs: seq<IoVec>) {
    forall i, j :: 0 <= i < j < |segs| ==> segs[i].block != segs[j].block
  }

  function Total(segs: seq<IoVec>): nat {
    if segs == [] then 0 else segs[0].len + Total(segs[1..])
  }

  ghost function Blocks(segs: seq<IoVec>): set<object> {
    set i | 0 <= i < |segs| :: segs[i].block
  }

  /** The bytes in the segments, in order: what `sendmsg` offers to the network. */
  function Gathered(segs: seq<IoVec>): bytes
    requires InBounds(segs)
    reads Blocks(segs)
  {
    if segs == [] then [] else
    assert forall i :: 0 <= i < |segs[1..]| ==> segs[1..][i] == segs[i + 1];
    segs[0].block[segs[0].offset..segs[0].offset + segs[0].len] + Gathered(segs[1..])
  }

  /** What is left of `data` once the first `i` segments are filled. */
  function Leftover(segs: seq<IoVec>, data: bytes, i: nat): bytes
    requires i <= |segs|
  {
    if i == 0 then data else Leftover(segs[1..], data[Min(segs[0].len, |data|)..], i - 1)
  }

  /** The part of `data` that lands in segment `i` when `recvmsg` fills the segments
      one after the other. */
  function Share(segs: seq<IoVec>, data: bytes, i: nat): (part: bytes)
    requires i < |segs|
    ensures |part| <= segs[i].len
  {
    var left := Leftover(segs, data, i);
    left[..Min(segs[i].len, |left|)]
  }

  lemma {:induction false} LeftoverNext(segs: seq<IoVec>, data: bytes, i: nat)
    requires i < |segs|
    ensures Leftover(segs, data, i + 1) == Leftover(segs, data, i)[|Share(segs, data, i)|..]
  {
    if i == 0 {
      assert Leftover(segs, data, 1) == Leftover(segs[1..], data[Min(segs[0].len, |data|)..], 0);
    } else {
      LeftoverNext(segs[1..], data[Min(segs[0].len, |data|)..], i - 1);
    }
  }

  /** `recvmsg` having received `data`. */
  method Deliver(segs: seq<IoVec>, data: bytes)
    requires InBounds(segs) && Disjoint(segs)
    modifies Blocks(segs)
    ensures forall i :: 0 <= i < |segs| ==>
      segs[i].block[..] == Splice(old(segs[i].block[..]), segs[i].offset, Share(segs, data, i))
  {
    hide Leftover, Share, Splice;
    var left := data;
    StartLeftover(segs, data);
    for i := 0 to |segs|
      invariant left == Leftover(segs, data, i)
      invariant forall j :: i <= j < |segs| ==> segs[j].block[..] == old(segs[j].block[..])
      invariant forall j :: 0 <= j < i ==>
        segs[j].block[..] == Splice(old(segs[j].block[..]), segs[j].offset, Share(segs, data, j))
    {
      ShareIs(segs, data, i);
      LeftoverNext(segs, data, i);
      var m := Min(segs[i].len, |left|);
      Memcpy(segs[i].block, segs[i].offset, left[..m]);
      left := left[m..];
    }
  }

  lemma StartLeftover(segs: seq<IoVec>, data: bytes)
    ensures Leftover(segs, data, 0) == data
  {
  }

  lemma ShareIs(segs: seq<IoVec>, data: bytes, i: nat)
    requires i < |segs|
    ensures var left := Leftover(segs, data, i); Share(segs, data, i) == left[..Min(segs[i].len, |left|)]
  {
  }

  method Memcpy(dst: array<byte>, at: nat, src: bytes)
    requires at + |src| <= dst.Length
    modifies dst
    ensures dst[..] == Splice(old(dst[..]), at, src)
  {
    forall i | 0 <= i < |src| {
      dst[at + i] := src[i];
    }
  }

  /** `Deliver` on plain values: the blocks are the chunks of `cs` from `k` on. */
  function Filled(cs: seq<bytes>, k: nat, segs: seq<IoVec>, data: bytes): (ds: seq<bytes>)
    ensures |ds| == |cs| && forall i :: 0 <= i < |cs| ==> |ds[i]| == |cs[i]|
    decreases |segs|
  {
    if segs == [] || k >= |cs| || segs[0].offset + segs[0].len > |cs[k]| then cs else
    var m := Min(segs[0].len, |data|);
    Filled(cs[k := Splice(cs[k], segs[0].offset, data[..m])], k + 1, segs[1..], data[m..])
  }

  lemma FilledNone(cs: seq<bytes>, k: nat, data: bytes)
    ensures Filled(cs, k, [], data) == cs
  {
  }

  lemma {:induction false} FilledAt(cs: seq<bytes>, k: nat, segs: seq<IoVec>, data: bytes, i: nat)
    requires k + |segs| <= |cs| && i < |cs|
    requires forall j :: 0 <= j < |segs| ==> segs[j].offset + segs[j].len <= |cs[k + j]|
    ensures Filled(cs, k, segs, data)[i] ==
      if k <= i < k + |segs| then Splice(cs[i], segs[i - k].offset, Share(segs, data, i - k)) else cs[i]
    decreases |segs|
  {
    if segs != [] {
      var m := Min(segs[0].len, |data|);
      var cs' := cs[k := Splice(cs[k], segs[0].offset, data[..m])];
      assert forall j :: 0 <= j < |segs[1..]| ==> segs[1..][j] == segs[j + 1];
      FilledAt(cs', k + 1, segs[1..], data[m..], i);
    }
  }

  /** One segment filled, then the others: one overwrite of the flat memory. */
  lemma FilledStep(cs: seq<bytes>, base: nat, k: nat, segs: seq<IoVec>, data: bytes,
                   part: bytes, rest: bytes, cs': seq<bytes>)
    requires Uniform(cs, base) && k < |cs| && segs != [] && segs[0].offset + segs[0].len <= base
    requires part == data[..Min(segs[0].len, |data|)] && rest == data[Min(segs[0].len, |data|)..]
    requires cs' == cs[k := Splice(cs[k], segs[0].offset, part)]
    requires rest != [] ==> segs[0].offset + |part| == base
    requires Span(base, k + 1) + |rest| <= |Flat(cs')| == |Flat(cs)|
    requires Flat(Filled(cs', k + 1, segs[1..], rest)) == Splice(Flat(cs'), Span(base, k + 1), rest)
    ensures Span(base, k) + segs[0].offset + |data| <= |Flat(cs)|
    ensures Flat(Filled(cs, k, segs, data)) == Splice(Flat(cs), Span(base, k) + segs[0].offset, data)
  {
    var at := Span(base, k) + segs[0].offset;
    assert Filled(cs, k, segs, data) == Filled(cs', k + 1, segs[1..], rest) by {
      hide Flat, Splice, Span;
    }
    assert Flat(cs') == Splice(Flat(cs), at, part) by {
      FlatSplice(cs, base, k, segs[0].offset, part);
    }
    hide Flat, Splice, Filled;
    if rest == [] {
      assert part == data;
      SpliceNothing(Flat(cs'), Span(base, k + 1));
    } else {
      assert data == part + rest;
      SpliceTwice(Flat(cs), at, part, rest, data);
    }
  }
}
