/** `ByteArray`: a byte buffer kept in a linked list of equal chunks, with a cursor
    and a cached pointer to the chunk the cursor is in. */
module ByteArrays {
  import opened Bits
  import opened Bytes
  import opened Chunks
  import opened IoVecs
  import opened Words
  import Varint
  import opened Wire

  /** The default chunk size of a `ByteArray`. */
  const BLOCK: nat := 4096

  class Node {
    const ptr: array<byte>
    const size: nat
    var next: Node?

    constructor (s: nat)
      ensures fresh(ptr) && ptr.Length == size == s && next == null
    {
      ptr := new byte[s];
      size := s;
      next := null;
    }
  }

  /** What a caller can see of a buffer. */
  datatype Snapshot = Snapshot(mem: bytes, position: nat, size: nat, capacity: nat, littleEndian: bool)

  /** Between the states `s` and `t`, `bs` has been written at the cursor: it replaces
      exactly the bytes there, the cursor stands behind it, everything else is kept, and
      memory grew no more than needed. */
  ghost predicate WrittenSince(s: Snapshot, t: Snapshot, base: nat, bs: bytes) {
    && t.littleEndian == s.littleEndian
    && t.position == s.position + |bs|
    && t.size == Max(s.size, t.position)
    && s.capacity <= t.capacity
    && (t.capacity == s.capacity || t.capacity < t.position + base)
    && |s.mem| == s.capacity && |t.mem| == t.capacity
    && Written(s.mem, t.mem, s.position, bs)
  }

  /** Writing `a` and then `b` is writing `a + b`. */
  lemma WrittenMore(s: Snapshot, t: Snapshot, u: Snapshot, base: nat, a: bytes, b: bytes)
    requires WrittenSince(s, t, base, a) && WrittenSince(t, u, base, b)
    ensures WrittenSince(s, u, base, a + b)
  {
    WrittenTwice(s.mem, t.mem, u.mem, s.position, a, b);
  }

  /** Part of the copying loop done: the first `n` bytes of `buf` are in place. */
  ghost predicate Copied(m: bytes, was: bytes, start: nat, buf: bytes, n: nat) {
    n <= |buf| && start + |buf| <= |was| && m == Splice(was, start, buf[..n])
  }

  lemma CopiedNone(was: bytes, start: nat, buf: bytes)
    requires start + |buf| <= |was|
    ensures Copied(was, was, start, buf, 0)
  {
  }

  lemma CopiedMore(m: bytes, was: bytes, start: nat, buf: bytes, n: nat, piece: bytes, m': bytes)
    requires Copied(m, was, start, buf, n)
    requires n + |piece| <= |buf| && piece == buf[n..n + |piece|] && m' == Splice(m, start + n, piece)
    ensures Copied(m', was, start, buf, n + |piece|)
  {
    SpliceNext(was, start, buf, n, n + |piece|, m, m');
  }

  lemma CopiedAll(m: bytes, was: bytes, start: nat, buf: bytes)
    requires Copied(m, was, start, buf, |buf|)
    ensures m == Splice(was, start, buf)
  {
    assert buf[..|buf|] == buf;
  }

  lemma OneByOne(a: bytes, b: byte, c: bytes)
    ensures a + [b] + c == a + ([b] + c)
  {
  }

  lemma SliceOfSlice(m: bytes, i: nat, n: nat, j: nat)
    requires i + n <= j <= |m|
    ensures m[i..j][..n] == m[i..i + n] && m[i..j][n..] == m[i + n..j]
  {
  }

  lemma SliceJoin(m: bytes, i: nat, j: nat, k: nat)
    requires i <= j <= k <= |m|
    ensures m[i..j] + m[j..k] == m[i..k]
  {
  }

  class ByteArray {
    const baseSize: nat
    var position: nat
    var capacity: nat
    var size: nat
    var littleEndian: bool
    var root: Node
    var cur: Node?

    ghost var nodes: seq<Node>
    ghost var chunks: seq<bytes>
    ghost var at: nat
    ghost var Repr: set<object>

    /** The list from `root` is `nodes`, distinct chunks of the base size. */
    ghost predicate Links()
      reads `nodes, `root, `capacity, nodes
    {
      && baseSize > 0
      && |nodes| > 0
      && root == nodes[0]
      && (forall i :: 0 <= i < |nodes| ==> nodes[i].size == nodes[i].ptr.Length == baseSize)
      && (forall i :: 0 <= i < |nodes| - 1 ==> nodes[i].next == nodes[i + 1])
      && nodes[|nodes| - 1].next == null
      && (forall i, j :: 0 <= i < j < |nodes| ==> nodes[i] != nodes[j] && nodes[i].ptr != nodes[j].ptr)
      && capacity == Span(baseSize, |nodes|)
    }

    /** The chunks hold `chunks`. */
    ghost predicate Holds()
      reads `nodes, `chunks, `capacity, set n | n in nodes :: n.ptr
    {
      && |chunks| == |nodes|
      && (forall i :: 0 <= i < |nodes| ==> nodes[i].ptr[..] == chunks[i])
      && |Flat(chunks)| == capacity
    }

    ghost predicate Chain()
      reads this, Repr
    {
      && this in Repr
      && (forall i :: 0 <= i < |nodes| ==> nodes[i] in Repr && nodes[i].ptr in Repr)
      && Links()
      && Holds()
    }

    /** Position `p` lies in chunk `k`; behind the last chunk only at full capacity. */
    ghost predicate InChunk(p: nat, k: nat)
      reads this
    {
      k <= |nodes| && Span(baseSize, k) <= p < Span(baseSize, k) + baseSize
    }

    ghost function NodeAt(k: nat): Node?
      reads this
    {
      if k < |nodes| then nodes[k] else null
    }

    /** The cached pointer agrees with the position. */
    ghost predicate Placed()
      reads this, Repr
    {
      && Chain()
      && InChunk(position, at)
      && cur == NodeAt(at)
    }

    ghost predicate Valid()
      reads this, Repr
      ensures Valid() ==> this in Repr
    {
      && Placed()
      && position <= size <= capacity
    }

    /** The abstract value: all the memory of the buffer as one byte string. */
    ghost function Mem(): bytes
      reads this
    {
      Flat(chunks)
    }

    constructor (base_size: nat)
      requires base_size > 0
      ensures Valid() && fresh(Repr)
      ensures baseSize == capacity == base_size && position == size == 0 && !littleEndian
    {
      baseSize := base_size;
      position := 0;
      capacity := base_size;
      size := 0;
      littleEndian := false;
      var node := new Node(base_size);
      root := node;
      cur := node;
      nodes := [node];
      chunks := [node.ptr[..]];
      at := 0;
      Repr := {this, node, node.ptr};
      new;
      FlatLength(chunks, baseSize);
    }

    /** The cached pointer is the chunk the position falls in, and null exactly at
        the end of the last chunk. */
    lemma CachedPointer()
      requires Placed() && position <= capacity
      ensures baseSize > 0 && capacity == baseSize * |nodes| == Span(baseSize, |nodes|) == |Mem()|
      ensures cur == null <==> position == capacity
      ensures position < capacity ==>
        position / baseSize == at < |nodes| && cur == nodes[position / baseSize] && cur.size == baseSize
      ensures position % baseSize == position - Span(baseSize, at)
    {
      SpanIsProduct(baseSize, |nodes|);
      Located(baseSize, at, position);
      if position < capacity {
        SpanCancel(baseSize, at, |nodes|);
      } else if at < |nodes| {
        SpanMonotone(baseSize, at + 1, |nodes|);
      }
    }

    // ---- the abstract state a caller sees ----

    /** The bytes from the cursor to the end of the data. */
    ghost function Readable(): (s: bytes)
      requires Valid()
      reads this, Repr
      ensures |s| == size - position
    {
      Mem()[position..size]
    }

    /** The data ends exactly at the end of the last chunk. */
    ghost predicate Tight()
      reads this
    {
      size == capacity
    }

    /** No chunk is empty beyond the data, except that there is always one. */
    ghost predicate Snug()
      reads this
    {
      capacity == baseSize || capacity < size + baseSize
    }

    /** When memory grew no more than needed, the data fills its last chunk exactly
        when it is a whole number of chunks. */
    lemma TightWhenFull()
      requires Valid() && Snug()
      ensures Tight() <==> size > 0 && size % baseSize == 0
    {
      SpanIsProduct(baseSize, |nodes|);
      hide Links, Holds, InChunk;
      if size == capacity {
        Located(baseSize, |nodes|, size);
        SpanMonotone(baseSize, 1, |nodes|);
        assert Span(baseSize, 1) == Span(baseSize, 0) + baseSize;
      } else if size > 0 && size % baseSize == 0 {
        WholeChunks(size, |nodes|);
      }
    }

    /** A whole number of chunks below the capacity leaves a whole chunk free. */
    lemma WholeChunks(p: nat, n: nat)
      requires baseSize > 0 && 0 < p < Span(baseSize, n) && p % baseSize == 0
      ensures p + baseSize <= Span(baseSize, n) && baseSize < Span(baseSize, n)
    {
      var k := p / baseSize;
      assert p == baseSize * k + p % baseSize;
      SpanIsProduct(baseSize, k);
      SpanCancel(baseSize, k, n);
      SpanMonotone(baseSize, k + 1, n);
    }

    ghost function Snap(): Snapshot
      reads this
    {
      Snapshot(Mem(), position, size, capacity, littleEndian)
    }

    twostate predicate Wrote(bs: bytes)
      requires old(Valid())
      reads this, Repr
    {
      && Valid() && fresh(Repr - old(Repr)) && littleEndian == old(littleEndian)
      && WrittenSince(old(Snap()), Snap(), baseSize, bs)
    }

    twostate lemma WroteNothing()
      requires old(Valid()) && unchanged(this) && unchanged(Repr)
      ensures Wrote([])
    {
      assert Mem() == old(Mem()) && |Mem()| == capacity;
    }

    /** The cursor has moved forward until `rest` is unread, and nothing else changed. */
    twostate predicate Advanced(rest: bytes)
      requires old(Valid())
      reads this, Repr
    {
      && Valid() && Repr == old(Repr)
      && littleEndian == old(littleEndian)
      && size == old(size) && capacity == old(capacity)
      && Mem() == old(Mem())
      && old(position) <= position
      && Readable() == rest
    }

    lemma MemIsWhole()
      requires Valid()
      ensures |Mem()| == capacity && Written(Mem(), Mem(), position, [])
    {
    }

    lemma NextNode(k: nat)
      requires Links() && k < |nodes|
      ensures nodes[k].next == NodeAt(k + 1)
    {
    }

    // ---- memcpy into and out of one chunk ----

    method Store(node: Node, npos: nat, piece: bytes, ghost k: nat)
      requires Chain() && k < |nodes| && node == nodes[k]
      requires npos + |piece| <= baseSize
      modifies this`chunks, node.ptr
      ensures Chain()
      ensures Span(baseSize, k) + npos + |piece| <= capacity
      ensures Mem() == Splice(old(Mem()), Span(baseSize, k) + npos, piece)
    {
      hide Flat, Span, Splice;
      FlatSplice(chunks, baseSize, k, npos, piece);
      Memcpy(node.ptr, npos, piece);
      chunks := chunks[k := Splice(chunks[k], npos, piece)];
    }

    method Load(node: Node, npos: nat, n: nat, ghost k: nat) returns (piece: bytes)
      requires Chain() && k < |nodes| && node == nodes[k]
      requires npos + n <= baseSize
      ensures Span(baseSize, k) + npos + n <= capacity
      ensures piece == Mem()[Span(baseSize, k) + npos..Span(baseSize, k) + npos + n]
    {
      FlatSlice(chunks, baseSize, k, npos, n);
      piece := node.ptr[npos..npos + n];
    }

    // ---- growing ----

    /** One turn of the loop of `addCapacity`. */
    method LinkChunk(tmp: Node) returns (node: Node)
      requires Chain() && tmp == nodes[|nodes| - 1]
      modifies this`capacity, this`nodes, this`chunks, this`Repr, tmp
      ensures Chain() && fresh(Repr - old(Repr)) && old(Repr) <= Repr
      ensures fresh(node) && nodes == old(nodes) + [node] && capacity == old(capacity) + baseSize
      ensures Mem()[..old(capacity)] == old(Mem())
    {
      hide Flat, Links;
      node := LinkNode(tmp);
      HoldMore(node.ptr[..]);
      chunks := chunks + [node.ptr[..]];
    }

    method LinkNode(tmp: Node) returns (node: Node)
      requires Links() && tmp == nodes[|nodes| - 1]
      modifies this`capacity, this`nodes, this`Repr, tmp
      ensures Links() && Repr == old(Repr) + {node, node.ptr}
      ensures fresh(node) && fresh(node.ptr) && node.ptr.Length == baseSize
      ensures nodes == old(nodes) + [node] && capacity == old(capacity) + baseSize
    {
      node := new Node(baseSize);
      tmp.next := node;
      capacity := capacity + baseSize;
      nodes := nodes + [node];
      Repr := Repr + {node, node.ptr};
    }

    lemma HoldMore(more: bytes)
      ensures Flat(chunks + [more]) == Flat(chunks) + more
    {
      FlatAppend(chunks, [more]);
      FlatOne(more);
    }

    method AddCapacity(n: nat)
      requires Valid()
      modifies Repr
      ensures Valid() && fresh(Repr - old(Repr))
      ensures position == old(position) && size == old(size) && littleEndian == old(littleEndian)
      ensures old(capacity) <= capacity && position + n <= capacity
      ensures capacity == old(capacity) || capacity < position + n + baseSize
      ensures Mem()[..old(capacity)] == old(Mem())
    {
      hide Flat, Links, Holds, Span;
      MemIsWhole();
      CachedPointer();
      if n == 0 {
        return;
      }
      var oldCap := capacity - position;
      if oldCap >= n {
        return;
      }
      var need := n - oldCap;
      var count := (need + baseSize - 1) / baseSize;
      ghost var c := RoundUp(need, baseSize);
      AddChunks(count, oldCap == 0);
    }

    /** The chunks are linked in; a cursor that stood at the end gets the first of them. */
    method AddChunks(count: nat, atEnd: bool)
      requires Chain() && at <= |nodes| && cur == NodeAt(at) && (atEnd <==> at == |nodes|)
      modifies Repr
      ensures Chain() && fresh(Repr - old(Repr))
      ensures at == old(at) <= |old(nodes)| <= |nodes| && cur == NodeAt(at)
      ensures position == old(position) && size == old(size) && littleEndian == old(littleEndian)
      ensures capacity == old(capacity) + Span(baseSize, count)
      ensures Mem()[..old(capacity)] == old(Mem())
    {
      hide Flat, Links, Holds, Span;
      var tmp := LastNode();
      var first := LinkChunks(tmp, count);
      if atEnd {
        cur := first;
      }
    }

    /** The walk of `addCapacity` to the end of the list. */
    method LastNode() returns (tmp: Node)
      requires Links()
      ensures |nodes| > 0 && tmp == nodes[|nodes| - 1]
    {
      tmp := root;
      ghost var j := 0;
      while tmp.next != null
        invariant 0 <= j < |nodes| && tmp == nodes[j]
        invariant tmp.next == NodeAt(j + 1)
        decreases |nodes| - j
      {
        tmp := tmp.next;
        j := j + 1;
      }
    }

    /** The allocating loop of `addCapacity`; `first` is the first new chunk. */
    method LinkChunks(last: Node, count: nat) returns (first: Node?)
      requires Chain() && last == nodes[|nodes| - 1]
      modifies this`capacity, this`nodes, this`chunks, this`Repr, last
      ensures Chain() && fresh(Repr - old(Repr)) && old(Repr) <= Repr
      ensures |nodes| == |old(nodes)| + count && old(nodes) <= nodes
      ensures first == NodeAt(|old(nodes)|)
      ensures capacity == old(capacity) + Span(baseSize, count)
      ensures Mem()[..old(capacity)] == old(Mem())
    {
      var tmp := last;
      first := null;
      for i := 0 to count
        invariant Chain() && fresh(Repr - old(Repr)) && old(Repr) <= Repr
        invariant |nodes| == |old(nodes)| + i && old(nodes) <= nodes
        invariant tmp == nodes[|nodes| - 1] && (i == 0 ==> tmp == last) && (i > 0 ==> fresh(tmp))
        invariant first == NodeAt(|old(nodes)|)
        invariant capacity == old(capacity) + Span(baseSize, i)
        invariant Mem()[..old(capacity)] == old(Mem())
      {
        var node := LinkChunk(tmp);
        if first == null {
          first := node;
        }
        tmp := node;
      }
    }

    // ---- write and read ----

    method Write(buf: bytes)
      requires Valid()
      modifies Repr
      ensures Wrote(buf)
    {
      if |buf| == 0 {
        return;
      }
      AddCapacity(|buf|);
      SpliceWrites(old(Mem()), Mem(), position, buf);
      CopyIn(buf);
    }

    /** One step of the copying loop: a piece that fits in the current chunk. */
    method PutPiece(npos: nat, piece: bytes)
      requires Placed() && at < |nodes| && position == Span(baseSize, at) + npos
      requires 0 < |piece| && npos + |piece| <= baseSize
      modifies Repr
      ensures Placed() && Repr == old(Repr) && nodes == old(nodes)
      ensures capacity == old(capacity) && littleEndian == old(littleEndian) && size == old(size)
      ensures at == old(at) + (if npos + |piece| == baseSize then 1 else 0)
      ensures npos + |piece| == baseSize ==> position == Span(baseSize, at)
      ensures position == old(position) + |piece| <= capacity
      ensures Mem() == Splice(old(Mem()), old(position), piece)
    {
      hide Links, Holds;
      NextNode(at);
      NodeSize(at);
      ChunkInside(at);
      Store(cur, npos, piece, at);
      position := position + |piece|;
      if cur.size == npos + |piece| {
        cur := cur.next;
        at := at + 1;
      }
    }

    /** The copying loop of `write`. */
    method CopyIn(buf: bytes)
      requires Valid() && 0 < |buf| && position + |buf| <= capacity
      modifies Repr
      ensures Valid() && Repr == old(Repr) && nodes == old(nodes)
      ensures capacity == old(capacity) && littleEndian == old(littleEndian)
      ensures position == old(position) + |buf| && size == Max(old(size), position)
      ensures Mem() == Splice(old(Mem()), old(position), buf)
    {
      hide Span, Flat, ByteArray.Placed, Copied, Splice;
      ghost var start, was := position, Mem();
      CachedPointer();
      CopiedNone(was, start, buf);
      var npos: nat := position % baseSize;
      var ncap := cur.size - npos;
      var bpos, left := 0, |buf|;
      while left > 0
        invariant Placed() && Repr == old(Repr) && nodes == old(nodes)
        invariant capacity == old(capacity) && littleEndian == old(littleEndian) && size == old(size)
        invariant 0 <= bpos <= |buf| && bpos + left == |buf| && position == start + bpos && start + |buf| <= capacity
        invariant left > 0 ==> at < |nodes| && position == Span(baseSize, at) + npos && npos + ncap == baseSize
        invariant left > 0 ==> ncap > 0
        invariant Copied(Mem(), was, start, buf, bpos)
      {
        ghost var mem := Mem();
        if ncap >= left {
          var piece := buf[bpos..bpos + left];
          PutPiece(npos, piece);
          CopiedMore(mem, was, start, buf, bpos, piece, Mem());
          bpos := bpos + left;
          left := 0;
        } else {
          var piece := buf[bpos..bpos + ncap];
          PutPiece(npos, piece);
          CopiedMore(mem, was, start, buf, bpos, piece, Mem());
          bpos := bpos + ncap;
          left := left - ncap;
          CachedPointer();
          ncap := cur.size;
          npos := 0;
        }
      }
      CopiedAll(Mem(), was, start, buf);
      Extend();
    }

    /** The data reaches at least to the cursor. */
    method Extend()
      requires Placed() && position <= capacity && size <= capacity
      modifies `size
      ensures Valid() && size == Max(old(size), position)
    {
      hide Links, Holds;
      if position > size {
        size := position;
      }
    }

    /** One step of a reading loop: `n` bytes of the current chunk. */
    method TakePiece(npos: nat, n: nat) returns (piece: bytes)
      requires Placed() && at < |nodes| && position == Span(baseSize, at) + npos
      requires 0 < n && npos + n <= baseSize
      modifies `position, `cur, `at
      ensures Placed()
      ensures at == old(at) + (if npos + n == baseSize then 1 else 0)
      ensures npos + n == baseSize ==> position == Span(baseSize, at)
      ensures position == old(position) + n <= capacity
      ensures piece == Mem()[old(position)..position]
    {
      hide Links, Holds;
      NextNode(at);
      NodeSize(at);
      ChunkInside(at);
      piece := Load(cur, npos, n, at);
      position := position + n;
      if cur.size == npos + n {
        cur := cur.next;
        at := at + 1;
      }
    }

    method Read(n: nat) returns (r: Read<bytes>)
      requires Valid()
      modifies `position, `cur, `at
      ensures r == Fetch(old(Readable()), n, old(Tight())).Result()
      ensures Advanced(Fetch(old(Readable()), n, old(Tight())).rest)
    {
      if n > size - position {
        return OutOfRange;
      }
      CachedPointer();
      if cur == null {
        return NullChunk;
      }
      SliceOfSlice(Mem(), position, n, size);
      var out := CopyOut(n);
      r := Value(out);
    }

    /** The copying loop of `read`. */
    method CopyOut(n: nat) returns (out: bytes)
      requires Placed() && position + n <= capacity && position < capacity
      modifies `position, `cur, `at
      ensures Placed() && position == old(position) + n
      ensures out == Mem()[old(position)..position]
    {
      hide Span, Flat, ByteArray.Placed;
      CachedPointer();
      ghost var start, mem := position, Mem();
      var npos: nat := position % baseSize;
      var ncap := cur.size - npos;
      var left := n;
      out := [];
      while left > 0
        invariant Placed() && position <= |mem|
        invariant 0 <= left <= n && position == start + n - left
        invariant left > 0 ==> at < |nodes| && position == Span(baseSize, at) + npos && npos + ncap == baseSize
        invariant left > 0 ==> ncap > 0
        invariant out == mem[start..position]
      {
        if ncap >= left {
          var piece := TakePiece(npos, left);
          SliceJoin(mem, start, position - left, position);
          out := out + piece;
          left := 0;
        } else {
          var piece := TakePiece(npos, ncap);
          SliceJoin(mem, start, position - ncap, position);
          out := out + piece;
          left := left - ncap;
          CachedPointer();
          ncap := cur.size;
          npos := 0;
        }
      }
    }

    // ---- moving the cursor ----

    method SetPosition(v: nat) returns (ok: bool)
      requires Valid()
      modifies `position, `size, `cur, `at
      ensures ok <==> v <= capacity
      ensures Valid()
      ensures if ok then position == v && size == Max(old(size), v)
              else position == old(position) && size == old(size)
    {
      if v > capacity {
        return false;
      }
      position := v;
      if position > size {
        size := position;
      }
      Seek(v);
      return true;
    }

    /** The walk of `setPosition` from the first chunk. */
    method Seek(v: nat)
      requires Chain() && v <= capacity
      modifies `cur, `at
      ensures InChunk(v, at) && cur == NodeAt(at)
    {
      hide Holds;
      cur := root;
      at := 0;
      var left := v;
      while left > cur.size
        invariant at < |nodes| && cur == nodes[at]
        invariant 0 <= left && v == Span(baseSize, at) + left
        decreases |nodes| - at
      {
        SpanCancel(baseSize, at + 1, |nodes|);
        NextNode(at);
        left := left - cur.size;
        cur := cur.next;
        at := at + 1;
      }
      if left == cur.size {
        NextNode(at);
        cur := cur.next;
        at := at + 1;
      }
    }

    method Clear()
      requires Valid()
      modifies Repr
      ensures Valid() && Repr == old(Repr)
      ensures position == size == 0 && capacity == baseSize && littleEndian == old(littleEndian)
      ensures Mem() == old(Mem())[..baseSize]
    {
      hide Links, Holds, Flat, Span;
      FirstChunk();
      CutList();
      position := 0;
      size := 0;
      cur := root;
      at := 0;
    }

    /** The chunks behind the first one are freed. */
    method CutList()
      requires Chain()
      modifies root, `capacity, `nodes, `chunks
      ensures Chain() && nodes == [root] && capacity == baseSize && chunks == old(chunks)[..1]
    {
      hide Span;
      FirstChunk();
      capacity := baseSize;
      root.next := null;
      nodes := [root];
      chunks := chunks[..1];
    }

    lemma FirstChunk()
      requires Links() && Holds()
      ensures |nodes| > 0 && root == nodes[0] && baseSize > 0 && Span(baseSize, 0) == 0 && Span(baseSize, 1) == baseSize
      ensures |chunks| > 0 && Flat(chunks[..1]) == Flat(chunks)[..baseSize] && |Flat(chunks[..1])| == baseSize
    {
      assert Flat(chunks) == chunks[0] + Flat(chunks[1..]);
      assert chunks[..1] == [chunks[0]];
      FlatOne(chunks[0]);
      assert |chunks[0]| == |nodes[0].ptr[..]|;
      assert Span(baseSize, 1) == Span(baseSize, 0) + baseSize;
    }

    // ---- reading without moving the cursor ----

    /** Where the positional `read` really starts: at the offset of `pos` inside the
        chunk of the cursor, whichever chunk `pos` is in. */
    ghost function StartOf(pos: nat): nat
      requires baseSize > 0
      reads this
    {
      Span(baseSize, at) + pos % baseSize
    }

    /** The positional `read` starts at its argument exactly when that lies in the
        chunk of the cursor. */
    lemma StartsAtPosition(pos: nat)
      requires Valid()
      ensures StartOf(pos) == pos <==> pos / baseSize == position / baseSize
    {
      Located(baseSize, at, position);
      if pos / baseSize == at {
        assert pos == baseSize * (pos / baseSize) + pos % baseSize;
        SpanIsProduct(baseSize, at);
      } else if StartOf(pos) == pos {
        Located(baseSize, at, pos);
      }
    }

    /** `read` at a position; behind the data the length test wraps around and passes. */
    method ReadAt(n: nat, pos: nat) returns (r: Read<bytes>)
      requires Valid() && pos < size + Modulus(W64)
      ensures r ==
        if n > (if pos <= size then size - pos else size - pos + Modulus(W64)) then OutOfRange
        else if position == capacity || StartOf(pos) + n > capacity then NullChunk
        else Value(Mem()[StartOf(pos)..StartOf(pos) + n])
    {
      var ahead := if pos <= size then size - pos else size - pos + Modulus(W64);
      if n > ahead {
        return OutOfRange;
      }
      CachedPointer();
      if cur == null {
        return NullChunk;
      }
      NodeSize(at);
      SpanMonotone(baseSize, at + 1, |nodes|);
      r := CopyAt(cur, pos % baseSize, n, at);
    }

    /** The copying loop of the positional `read`, from offset `npos` of chunk `k`. */
    method CopyAt(first: Node, npos: nat, n: nat, ghost k: nat) returns (r: Read<bytes>)
      requires Chain() && k < |nodes| && first == nodes[k] && npos < baseSize
      requires Span(baseSize, k + 1) <= capacity == |Mem()|
      ensures r ==
        var start := Span(baseSize, k) + npos;
        if start + n > capacity then NullChunk else Value(Mem()[start..start + n])
    {
      hide Links, Holds, Span, Flat;
      ChunkInside(k);
      NodeSize(k);
      ghost var start, mem := Span(baseSize, k) + npos, Mem();
      var node: Node, off: nat := first, npos;
      var ncap := node.size - off;
      var out, left := [], n;
      ghost var i: nat, done := k, start;
      while left > 0
        invariant 0 <= left <= n && done == start + n - left <= capacity
        invariant left > 0 ==> i < |nodes| && node == nodes[i] && done == Span(baseSize, i) + off
        invariant left > 0 ==> off + ncap == baseSize && ncap > 0
        invariant out == mem[start..done]
      {
        var m := if ncap >= left then left else ncap;
        var piece := Load(node, off, m, i);
        SliceJoin(mem, start, done, done + m);
        out := out + piece;
        left := left - m;
        done := done + m;
        if left > 0 {
          NodeSize(i);
          ChunkInside(i);
          if node.next == null {
            return NullChunk;
          }
          node := node.next;
          i := i + 1;
          NodeSize(i);
          ncap := node.size;
          off := 0;
        }
      }
      r := Value(out);
    }

    lemma NodeSize(k: nat)
      requires Links() && k < |nodes|
      ensures nodes[k].size == baseSize && nodes[k].next == NodeAt(k + 1)
      ensures k + 1 == |nodes| ==> capacity == Span(baseSize, k) + baseSize
    {
    }

    /** `toString`: the unread data; it is a positional read from the cursor. */
    method ToString() returns (s: bytes)
      requires Valid()
      ensures s == Readable()
    {
      if size - position == 0 {
        return [];
      }
      StartsAtPosition(position);
      CachedPointer();
      var r := ReadAt(size - position, position);
      s := r.value;
    }

    // ---- scatter/gather ----

    /** The `n` bytes from offset `npos` of chunk `k` on, one segment a chunk. */
    ghost function Segments(k: nat, npos: nat, n: nat): seq<IoVec>
      requires npos < baseSize
      reads this
      decreases |nodes| - k
    {
      if n == 0 || k >= |nodes| then []
      else
        var m := Min(baseSize - npos, n);
        [IoVec(nodes[k].ptr, npos, m)] + Segments(k + 1, 0, n - m)
    }

    lemma InsideChunk(k: nat, p: nat)
      requires Links() && Span(baseSize, k) <= p < capacity
      ensures k < |nodes| && Span(baseSize, k + 1) <= capacity && nodes[k].ptr.Length == baseSize
    {
      SpanCancel(baseSize, k, |nodes|);
      SpanMonotone(baseSize, k + 1, |nodes|);
    }

    /** `n` bytes in segments, one to a chunk, from chunk `k` on. */
    ghost predicate InChunks(segs: seq<IoVec>, k: nat, n: nat)
      reads this
    {
      && k + |segs| <= |nodes| && Total(segs) == n
      && (forall i :: 0 <= i < |segs| ==> segs[i].block == nodes[k + i].ptr && 0 < segs[i].len)
      && (forall i :: 0 <= i < |segs| ==> segs[i].offset + segs[i].len <= baseSize)
    }

    lemma FirstInChunk(k: nat, first: IoVec, rest: seq<IoVec>, n: nat)
      requires k < |nodes| && first.block == nodes[k].ptr && 0 < first.len && first.offset + first.len <= baseSize
      requires InChunks(rest, k + 1, n)
      ensures InChunks([first] + rest, k, first.len + n)
    {
      assert ([first] + rest)[1..] == rest;
    }

    lemma NoneInChunk(k: nat)
      requires k <= |nodes|
      ensures InChunks([], k, 0)
    {
    }

    lemma {:induction false} SegmentsShape(k: nat, npos: nat, n: nat)
      requires Links() && npos < baseSize && k <= |nodes| && Span(baseSize, k) + npos + n <= capacity
      ensures InChunks(Segments(k, npos, n), k, n)
      decreases |nodes| - k
    {
      if n == 0 {
        NoneInChunk(k);
      } else {
        InsideChunk(k, Span(baseSize, k) + npos);
        ChunkInside(k);
        FirstSegment(k, npos, n);
        hide Links, Segments, Span, InChunks;
        var room: nat := baseSize - npos;
        if n <= room {
          NoneInChunk(k + 1);
          FirstInChunk(k, IoVec(nodes[k].ptr, npos, n), [], 0);
        } else {
          var left: nat := n - room;
          SegmentsShape(k + 1, 0, left);
          FirstInChunk(k, IoVec(nodes[k].ptr, npos, room), Segments(k + 1, 0, left), left);
        }
      }
    }

    /** The segments are disjoint and lie inside their chunks. */
    lemma SegmentsApart(k: nat, npos: nat, n: nat)
      requires Links() && npos < baseSize && k <= |nodes| && Span(baseSize, k) + npos + n <= capacity
      ensures InBounds(Segments(k, npos, n)) && Disjoint(Segments(k, npos, n))
    {
      SegmentsShape(k, npos, n);
    }

    lemma GatheredFirst(k: nat, npos: nat, n: nat)
      requires npos < baseSize && k < |nodes| && n > 0 && npos + Min(baseSize - npos, n) <= nodes[k].ptr.Length
      requires InBounds(Segments(k, npos, n)) && InBounds(Segments(k + 1, 0, n - Min(baseSize - npos, n)))
      ensures
        var m := Min(baseSize - npos, n);
        Gathered(Segments(k, npos, n)) == nodes[k].ptr[npos..npos + m] + Gathered(Segments(k + 1, 0, n - m))
    {
      assert Segments(k, npos, n)[1..] == Segments(k + 1, 0, n - Min(baseSize - npos, n));
    }

    lemma GatheredNone(k: nat, npos: nat)
      requires npos < baseSize && InBounds(Segments(k, npos, 0))
      ensures Gathered(Segments(k, npos, 0)) == []
    {
    }

    /** The segments spell exactly the bytes of their window. */
    lemma {:induction false} SegmentsSpell(k: nat, npos: nat, n: nat)
      requires Chain() && npos < baseSize && k <= |nodes| && Span(baseSize, k) + npos + n <= capacity
      ensures InBounds(Segments(k, npos, n))
      ensures Gathered(Segments(k, npos, n)) == Mem()[Span(baseSize, k) + npos..Span(baseSize, k) + npos + n]
      decreases |nodes| - k
    {
      hide Flat, Links, Holds, InBounds, Segments, Gathered;
      HeldChunks();
      SegmentsApart(k, npos, n);
      if n == 0 {
        GatheredNone(k, npos);
      } else {
        InsideChunk(k, Span(baseSize, k) + npos);
        var m := Min(baseSize - npos, n);
        SegmentsSpell(k + 1, 0, n - m);
        GatheredFirst(k, npos, n);
        FlatSlice(chunks, baseSize, k, npos, m);
        assert nodes[k].ptr[npos..npos + m] == chunks[k][npos..npos + m];
        var start := Span(baseSize, k) + npos;
        SliceJoin(Mem(), start, start + m, start + n);
      }
    }

    /** Filling the segments in order is one overwrite of the window. */
    lemma {:induction false} FilledIsSplice(cs: seq<bytes>, k: nat, npos: nat, n: nat, data: bytes)
      requires Links() && npos < baseSize && k <= |nodes| && Span(baseSize, k) + npos + n <= capacity
      requires |cs| == |nodes| && Uniform(cs, baseSize) && |data| <= n && |Flat(cs)| == capacity
      ensures Flat(Filled(cs, k, Segments(k, npos, n), data)) == Splice(Flat(cs), Span(baseSize, k) + npos, data)
      decreases |nodes| - k
    {
      hide Flat, Splice, Links, Filled;
      if n > 0 {
        InsideChunk(k, Span(baseSize, k) + npos);
        var m := Min(baseSize - npos, n);
        var part, rest := data[..Min(m, |data|)], data[Min(m, |data|)..];
        var cs' := cs[k := Splice(cs[k], npos, part)];
        var segs := Segments(k, npos, n);
        assert segs[0] == IoVec(nodes[k].ptr, npos, m) && segs[1..] == Segments(k + 1, 0, n - m);
        FlatSplice(cs, baseSize, k, npos, part);
        FilledIsSplice(cs', k + 1, 0, n - m, rest);
        FilledStep(cs, baseSize, k, segs, data, part, rest, cs');
      } else {
        FilledNone(cs, k, data);
        SpliceNothing(Flat(cs), Span(baseSize, k) + npos);
      }
    }

    static lemma Snoc(a: seq<IoVec>, v: IoVec, b: seq<IoVec>)
      ensures a + [v] + b == a + ([v] + b)
    {
    }

    lemma FirstSegment(k: nat, npos: nat, n: nat)
      requires npos < baseSize && k < |nodes|
      ensures
        var m := Min(baseSize - npos, n);
        Segments(k, npos, n) ==
        if n == 0 then [] else [IoVec(nodes[k].ptr, npos, m)] + (if n > m then Segments(k + 1, 0, n - m) else [])
    {
    }

    /** The loop of `getReadBuffers` and `getWriteBuffers`; not `ok` where it follows the
        null pointer of the last chunk. */
    method Gather(first: Node, npos: nat, len: nat, ghost k: nat) returns (ok: bool, segs: seq<IoVec>)
      requires Links() && k < |nodes| && first == nodes[k] && npos < baseSize
      ensures ok <==> Span(baseSize, k) + npos + len <= capacity
      ensures ok ==> segs == Segments(k, npos, len)
    {
      hide Links, Segments, Span;
      var node: Node, off: nat := first, npos;
      NodeSize(k);
      var ncap := node.size - off;
      var left := len;
      ghost var i: nat, done, end := k, Span(baseSize, k) + npos, Span(baseSize, k) + npos + len;
      ChunkInside(k);
      segs := [];
      FirstSegment(k, npos, len);
      while left > 0
        invariant 0 <= left && done + left == end && done <= capacity
        invariant left > 0 ==> i < |nodes| && node == nodes[i] && done == Span(baseSize, i) + off
        invariant left > 0 ==> off < baseSize && off + ncap == baseSize
        invariant left > 0 ==> segs + Segments(i, off, left) == Segments(k, npos, len)
        invariant left == 0 ==> segs == Segments(k, npos, len)
        decreases left
      {
        FirstSegment(i, off, left);
        ChunkInside(i);
        if ncap >= left {
          segs := segs + [IoVec(node.ptr, off, left)];
          done := done + left;
          left := 0;
        } else {
          Snoc(segs, IoVec(node.ptr, off, ncap), Segments(i + 1, 0, left - ncap));
          segs := segs + [IoVec(node.ptr, off, ncap)];
          done := done + ncap;
          left := left - ncap;
          NodeSize(i);
          if node.next == null {
            return false, segs;
          }
          node := node.next;
          i := i + 1;
          NodeSize(i);
          ncap := node.size;
          off := 0;
        }
      }
      ok := true;
    }

    lemma ChunkInside(k: nat)
      requires Links() && k < |nodes|
      ensures Span(baseSize, k) + baseSize == Span(baseSize, k + 1) <= capacity
    {
      SpanMonotone(baseSize, k + 1, |nodes|);
    }

    /** `getReadBuffers`: the next `min(len, readable)` bytes, in place. */
    method GetReadBuffers(len: nat) returns (segs: seq<IoVec>, total: nat)
      requires Valid()
      ensures total == Min(len, size - position)
      ensures InBounds(segs) && Disjoint(segs) && Total(segs) == total
      ensures Blocks(segs) <= Repr
      ensures Gathered(segs) == Readable()[..total]
    {
      total := if len > size - position then size - position else len;
      if total == 0 {
        return [], 0;
      }
      segs := WindowFromCursor(total);
      WindowSpells(segs, total);
    }

    lemma WindowSpells(segs: seq<IoVec>, len: nat)
      requires Valid() && position + len <= size && IsWindow(segs, len) && InBounds(segs)
      ensures Gathered(segs) == Readable()[..len]
    {
      CachedPointer();
      hide Links, Holds, Span, Flat, Segments, Gathered, InBounds;
      SliceOfSlice(Mem(), position, len, size);
      SegmentsSpell(at, position - Span(baseSize, at), len);
    }

    /** The segments of the `len` bytes from the cursor on. */
    method WindowFromCursor(len: nat) returns (segs: seq<IoVec>)
      requires Valid() && 0 < len && position + len <= capacity
      ensures position - Span(baseSize, at) < baseSize
      ensures segs == Segments(at, position - Span(baseSize, at), len)
      ensures InBounds(segs) && Disjoint(segs) && Total(segs) == len && Blocks(segs) <= Repr
    {
      CachedPointer();
      hide Links, Holds, Span, Segments, InBounds, Disjoint, Total, Blocks;
      var npos: nat := position % baseSize;
      assert Span(baseSize, at) + npos == position;
      segs := Chained(cur, npos, len, at);
    }

    /** The segment loop where the window is inside the chunks. */
    method Chained(first: Node, npos: nat, len: nat, ghost k: nat) returns (segs: seq<IoVec>)
      requires Chain() && k < |nodes| && first == nodes[k] && npos < baseSize
      requires Span(baseSize, k) + npos + len <= capacity
      ensures segs == Segments(k, npos, len)
      ensures InBounds(segs) && Disjoint(segs) && Total(segs) == len && Blocks(segs) <= Repr
    {
      hide Links, Holds, Span, Segments, InBounds, Disjoint, Total, Blocks;
      SegmentsShape(k, npos, len);
      SegmentsApart(k, npos, len);
      var ok;
      ok, segs := Gather(first, npos, len, k);
      BlocksHeld(segs, k);
    }

    lemma BlocksHeld(segs: seq<IoVec>, k: nat)
      requires forall i :: 0 <= i < |nodes| ==> nodes[i].ptr in Repr
      requires k + |segs| <= |nodes| && forall i :: 0 <= i < |segs| ==> segs[i].block == nodes[k + i].ptr
      ensures Blocks(segs) <= Repr
    {
    }

    /** `getReadBuffers` at a position: as many bytes as are readable from the cursor. That
        is the number readable from the position only where both leave room for `len` or
        are the same. Not `ok` where the window runs off the last chunk. */
    method GetReadBuffersAt(len: nat, pos: nat) returns (ok: bool, segs: seq<IoVec>, total: nat)
      requires Valid()
      ensures total == Min(len, size - position)
      ensures pos <= size ==>
        (total == Min(len, size - pos) <==> pos == position || len <= Min(size - pos, size - position))
      ensures ok <==> total == 0 || pos + total <= capacity
      ensures ok ==> InBounds(segs) && Disjoint(segs) && Total(segs) == total
      ensures ok && total > 0 ==> Gathered(segs) == Mem()[pos..pos + total]
    {
      hide Segments, Flat, Span, Links, Gathered;
      total := if len > size - position then size - position else len;
      if total == 0 {
        return true, [], 0;
      }
      ghost var k, off := pos / baseSize, pos % baseSize;
      LocatedAt(pos);
      var node := NodeHolding(pos);
      if node == null {
        return false, [], total;
      }
      ok, segs := Gather(node, pos % baseSize, total, k);
      if ok {
        PartSpells(k, off, total);
      }
    }

    lemma PartSpells(k: nat, npos: nat, n: nat)
      requires Chain() && npos < baseSize && k < |nodes| && Span(baseSize, k) + npos + n <= capacity
      ensures var segs := Segments(k, npos, n);
        && InBounds(segs) && Disjoint(segs) && Total(segs) == n
        && Gathered(segs) == Mem()[Span(baseSize, k) + npos..Span(baseSize, k) + npos + n]
    {
      hide Segments, Flat, Span;
      SegmentsShape(k, npos, n);
      SegmentsApart(k, npos, n);
      SegmentsSpell(k, npos, n);
    }

    /** The walk of the positional `getReadBuffers` from the first chunk, which may run off
        the last one. */
    method NodeHolding(pos: nat) returns (node: Node?)
      requires Links()
      ensures node == NodeAt(pos / baseSize)
    {
      var count := pos / baseSize;
      node := root;
      ghost var k := 0;
      while count > 0
        invariant 0 <= k && 0 <= count && count + k == pos / baseSize && node == NodeAt(k)
      {
        if node == null {
          return;
        }
        NodeSize(k);
        node := node.next;
        k := k + 1;
        count := count - 1;
      }
    }

    /** A position lies in its chunk, and at or behind the end there is none. */
    lemma LocatedAt(p: nat)
      requires Links()
      ensures 0 <= p / baseSize && p == Span(baseSize, p / baseSize) + p % baseSize
      ensures p / baseSize < |nodes| <==> p < capacity
    {
      assert p == baseSize * (p / baseSize) + p % baseSize;
      SpanIsProduct(baseSize, p / baseSize);
      if p < capacity {
        SpanCancel(baseSize, p / baseSize, |nodes|);
      } else if p / baseSize < |nodes| {
        ChunkInside(p / baseSize);
      }
    }

    /** `getWriteBuffers`: room for `len` bytes from the cursor on. Position, size and
        the bytes in memory stay as they are. */
    method GetWriteBuffers(len: nat) returns (segs: seq<IoVec>, total: nat)
      requires Valid()
      modifies Repr
      ensures Valid() && fresh(Repr - old(Repr))
      ensures position == old(position) && size == old(size) && littleEndian == old(littleEndian)
      ensures old(capacity) <= capacity && position + len <= capacity
      ensures capacity == old(capacity) || capacity < position + len + baseSize
      ensures Mem()[..old(capacity)] == old(Mem())
      ensures total == len && InBounds(segs) && Disjoint(segs) && Total(segs) == len && Blocks(segs) <= Repr
      ensures IsWindow(segs, len)
    {
      if len == 0 {
        return [], 0;
      }
      AddCapacity(len);
      total := len;
      segs := WindowFromCursor(len);
    }

    /** `segs` is the memory from the cursor on, `len` bytes of it. */
    ghost predicate IsWindow(segs: seq<IoVec>, len: nat)
      reads this
    {
      && Span(baseSize, at) <= position < Span(baseSize, at) + baseSize
      && segs == Segments(at, position - Span(baseSize, at), len)
    }

    /** The arrays hold `data` in the first bytes of `segs`, and `chunks` elsewhere. */
    ghost predicate FilledWith(segs: seq<IoVec>, data: bytes)
      reads this, set n | n in nodes :: n.ptr
    {
      && |chunks| == |nodes| && Uniform(chunks, baseSize)
      && (forall i :: 0 <= i < |nodes| ==> nodes[i].ptr[..] == Filled(chunks, at, segs, data)[i])
    }

    lemma HeldChunks()
      requires Links() && Holds()
      ensures |chunks| == |nodes| && Uniform(chunks, baseSize) && |Mem()| == capacity
      ensures forall i :: 0 <= i < |nodes| ==> nodes[i].ptr[..] == chunks[i]
    {
      hide Flat, Span;
      forall i | 0 <= i < |chunks| ensures |chunks[i]| == baseSize {
        assert nodes[i].ptr[..] == chunks[i];
      }
    }

    lemma OtherBlocks(segs: seq<IoVec>, k: nat, i: nat)
      requires Links() && k + |segs| <= |nodes| && i < |nodes| && !(k <= i < k + |segs|)
      requires forall j :: 0 <= j < |segs| ==> segs[j].block == nodes[k + j].ptr
      ensures nodes[i].ptr !in Blocks(segs)
    {
    }

    /** The blocks of a window are the chunks from the cursor on. */
    lemma WindowBlocks(segs: seq<IoVec>, len: nat)
      requires Valid() && position + len <= capacity && IsWindow(segs, len)
      ensures at + |segs| <= |nodes| && |chunks| == |nodes| && Uniform(chunks, baseSize)
      ensures forall j :: 0 <= j < |segs| ==> segs[j].offset + segs[j].len <= |chunks[at + j]|
      ensures forall i :: at <= i < at + |segs| ==> segs[i - at].block == nodes[i].ptr
      ensures forall i :: 0 <= i < |nodes| ==> nodes[i].ptr[..] == chunks[i]
      ensures forall i :: 0 <= i < |nodes| && !(at <= i < at + |segs|) ==> nodes[i].ptr !in Blocks(segs)
    {
      hide Links, Holds, Segments, Blocks, Total, Span, Flat;
      SegmentsShape(at, position - Span(baseSize, at), len);
      HeldChunks();
      forall i | 0 <= i < |nodes| && !(at <= i < at + |segs|) ensures nodes[i].ptr !in Blocks(segs) {
        OtherBlocks(segs, at, i);
      }
    }

    /** Outside code has filled the start of the segments of `getWriteBuffers` with
        `data`: for the buffer that is one overwrite at the cursor. */
    ghost method Absorb(segs: seq<IoVec>, len: nat, data: bytes)
      requires this in Repr && forall i :: 0 <= i < |nodes| ==> nodes[i] in Repr && nodes[i].ptr in Repr
      requires Links() && position <= size <= capacity && InChunk(position, at) && cur == NodeAt(at)
      requires position + len <= capacity && |data| <= len && IsWindow(segs, len)
      requires FilledWith(segs, data) && |Flat(chunks)| == capacity
      modifies `chunks
      ensures Valid()
      ensures Mem() == Splice(old(Mem()), position, data)
    {
      hide Links, Splice, Filled, Share, Flat, Span, Segments;
      FilledIsSplice(chunks, at, position - Span(baseSize, at), len, data);
      hide FilledWith;
      chunks := Filled(chunks, at, segs, data);
    }

    // ---- typed writes ----

    method SetIsLittleEndian(val: bool)
      requires Valid()
      modifies `littleEndian
      ensures Valid() && littleEndian == val
    {
      littleEndian := val;
    }

    /** `writeFint`: swap the word if the stream is not in host order, then copy the
        word's memory. */
    method WriteFint(value: nat, w: Width, kind: Kind := Unsigned)
      requires Valid() && IsIntegral(value, w, kind)
      modifies Repr
      ensures Wrote(EncodeFixed(value, w, old(littleEndian), kind))
    {
      hide Links, Holds, WrittenSince, SwapBytes;
      var word := value;
      if !littleEndian {
        word := ByteSwap(value, w, kind);
        if w != W8 {
          ByteSwapIsBigEndian(value, w, kind);
        }
      }
      Write(LittleEndian(word, Size(w)));
    }

    method WriteFuint8(value: byte)
      requires Valid()
      modifies Repr
      ensures Wrote([value])
    {
      Write([value]);
    }

    /** `writeUint32` and `writeUint64`: the groups go through a scratch array first. */
    method WriteVarint(value: nat, w: Width)
      requires Valid() && Varint.IsVarintWidth(w) && IsUnsigned(value, w)
      modifies Repr
      ensures Wrote(Varint.Encode(value))
    {
      var tmp := VarintScratch(value, w);
      Write(tmp);
    }

    /** One turn of the loop of `writeUint32`. */
    static lemma NextGroup(v: nat)
      requires v >= 0x80
      ensures Or(And(v, 0x7F), 0x80) < 256 && ShiftRight(v, 7) < v
      ensures Varint.Encode(v) == [Or(And(v, 0x7F), 0x80)] + Varint.Encode(ShiftRight(v, 7))
    {
      hide Or, And, ShiftRight, Varint.Encode;
      GroupByte(v);
      Varint.EncodeMore(v);
    }

    method VarintScratch(value: nat, w: Width) returns (bs: bytes)
      requires Varint.IsVarintWidth(w) && IsUnsigned(value, w)
      ensures bs == Varint.Encode(value)
    {
      var tmp := new byte[Varint.MaxGroups(w)];
      hide *;
      var i, v := 0, value;
      Varint.WordFitsScratch(value, w);
      while v >= 0x80
        invariant 0 <= i && i + |Varint.Encode(v)| <= tmp.Length
        invariant tmp[..i] + Varint.Encode(v) == Varint.Encode(value)
        decreases v
      {
        NextGroup(v);
        ghost var written, group := tmp[..i], Or(And(v, 0x7F), 0x80);
        tmp[i] := Or(And(v, 0x7F), 0x80);
        assert tmp[..i + 1] == written + [group];
        OneByOne(written, group, Varint.Encode(ShiftRight(v, 7)));
        i := i + 1;
        v := ShiftRight(v, 7);
      }
      Varint.EncodeLast(v);
      tmp[i] := v;
      i := i + 1;
      bs := tmp[..i];
    }

    /** `writeInt32` and `writeInt64`. */
    method WriteZigzag(value: int, w: Width)
      requires Valid() && Varint.IsVarintWidth(w) && IsSigned(value, w)
      modifies Repr
      ensures Wrote(Varint.Encode(EncodeZigzag(value, w)))
    {
      WriteVarint(EncodeZigzag(value, w), w);
    }

    method WriteStringVint(value: bytes)
      requires Valid() && |value| < Modulus(W64)
      modifies Repr
      ensures Wrote(EncodeString(value))
    {
      hide Links, Holds, WrittenSince;
      ghost var s := Snap();
      WriteVarint(|value|, W64);
      ghost var t := Snap();
      Write(value);
      WrittenMore(s, t, Snap(), baseSize, Varint.Encode(|value|), value);
    }

    /** `writeStringF16`, `writeStringF32` and `writeStringF64`. */
    method WriteStringFixed(value: bytes, w: Width)
      requires Valid() && w != W8
      modifies Repr
      ensures Wrote(EncodeStringFixed(value, w, old(littleEndian)))
    {
      hide Links, Holds, WrittenSince;
      ghost var s := Snap();
      WriteFint(ToUnsigned(|value|, w), w);
      ghost var t := Snap();
      Write(value);
      WrittenMore(s, t, Snap(), baseSize, EncodeFixed(ToUnsigned(|value|, w), w, s.littleEndian), value);
    }

    // ---- typed reads ----

    method ReadFuint8() returns (r: Read<byte>)
      requires Valid()
      modifies `position, `cur, `at
      ensures var s := old(Readable());
        if s == [] then r == OutOfRange && Advanced(s) else r == Value(s[0]) && Advanced(s[1..])
    {
      var bs := Read(1);
      r := if bs.Value? then Value(bs.value[0]) else OutOfRange;
    }

    /** `readFint16` to `readFuint64`, as the unsigned word. */
    method ReadFint(w: Width) returns (r: Read<nat>)
      requires Valid() && w != W8
      modifies `position, `cur, `at
      ensures r == DecodeFixed(old(Readable()), w, littleEndian).Result()
      ensures Advanced(DecodeFixed(old(Readable()), w, littleEndian).rest)
    {
      ghost var s := Readable();
      var bs := Read(Size(w));
      if !bs.Value? {
        return OutOfRange;
      }
      var word := FromLittleEndian(bs.value);
      DecodedFixedFits(s, w, true);
      if !littleEndian {
        HostWord(bs.value, w);
        word := ByteSwap(word, w);
      }
      r := Value(word);
    }

    static lemma HostWord(bs: bytes, w: Width)
      requires |bs| == Size(w) && w != W8
      ensures IsUnsigned(FromLittleEndian(bs), w)
      ensures ByteSwap(FromLittleEndian(bs), w) == FromBigEndian(bs)
    {
      ModulusIsPow256(w);
      DecodedFixedFits(bs, w, true);
      assert bs[..Size(w)] == bs;
      FromLittleEndianReversed(LittleEndian(FromLittleEndian(bs), Size(w)));
      LittleEndianReversed(FromLittleEndian(bs), Size(w));
      ReverseReverse(bs);
      FromLittleEndianReversed(Reverse(bs));
      BigEndianOfBytes(Reverse(bs));
      ReverseReverse(LittleEndian(FromLittleEndian(bs), Size(w)));
    }

    /** `readUint32` and `readUint64`: at most one group for every seven bits begun. */
    method ReadVarint(w: Width) returns (r: Read<nat>)
      requires Valid() && Varint.IsVarintWidth(w)
      modifies `position, `cur, `at
      ensures r == Varint.Decode(old(Readable()), w).Result()
      ensures Advanced(Varint.Decode(old(Readable()), w).rest)
    {
      hide Links, Holds, Varint.Reading, Varint.Decode, Varint.Part, ToUnsigned, Or, And, ShiftLeft;
      var result: nat, i := 0, 0;
      ghost var s, n: nat, sum: nat := Readable(), Varint.MaxGroups(w), 0;
      Varint.ReadingStarts(s, w);
      Varint.ReduceZero(w);
      while i < 8 * Size(w)
        invariant Valid() && Advanced(Readable())
        invariant i + 7 * n == 7 * Varint.MaxGroups(w)
        invariant Varint.Reading(s, w, Readable(), n, sum, Pow2(i)) && sum < Pow2(i)
        invariant result == ToUnsigned(sum, w)
        decreases n
      {
        Varint.ReadingStep(s, w, Readable(), n, sum, Pow2(i));
        var b := ReadFuint8();
        if b == OutOfRange {
          return OutOfRange;
        }
        Varint.GroupMerged(sum, b.value, i, w);
        if b.value < 0x80 {
          result := Or(result, ShiftLeft(b.value, i, w));
          return Value(result);
        }
        result := Or(result, ShiftLeft(And(b.value, 0x7F), i, w));
        sum := sum + Varint.Part(Pow2(i), b.value);
        i := i + 7;
        n := n - 1;
      }
      Varint.ReadingEnds(s, w, Readable(), sum, Pow2(i));
      r := Value(result);
    }

    /** `readInt32` and `readInt64`. */
    method ReadZigzag(w: Width) returns (r: Read<int>)
      requires Valid() && Varint.IsVarintWidth(w)
      modifies `position, `cur, `at
      ensures var d := Varint.Decode(old(Readable()), w);
        && Advanced(d.rest)
        && r == if d.Done? then Value(DecodeZigzag(d.value, w)) else OutOfRange
    {
      var u := ReadVarint(w);
      r := if u.Value? then Value(DecodeZigzag(u.value, w)) else OutOfRange;
    }

    method ReadStringVint() returns (r: Read<bytes>)
      requires Valid()
      modifies `position, `cur, `at
      ensures r == DecodeString(old(Readable()), old(Tight())).Result()
      ensures Advanced(DecodeString(old(Readable()), old(Tight())).rest)
    {
      var len := ReadVarint(W64);
      if !len.Value? {
        return OutOfRange;
      }
      r := Read(len.value);
    }

    /** `readStringF16`, `readStringF32` and `readStringF64`. */
    method ReadStringFixed(w: Width) returns (r: Read<bytes>)
      requires Valid() && w != W8
      modifies `position, `cur, `at
      ensures r == DecodeStringFixed(old(Readable()), w, littleEndian, old(Tight())).Result()
      ensures Advanced(DecodeStringFixed(old(Readable()), w, littleEndian, old(Tight())).rest)
    {
      var len := ReadFint(w);
      if !len.Value? {
        return OutOfRange;
      }
      r := Read(len.value);
    }
  }

  /** `n` bytes written into an empty buffer fill its last chunk to the end. */
  predicate Full(n: nat, base: nat)
    requires base > 0
  {
    n > 0 && n % base == 0
  }

  ghost predicate IsEmpty(b: ByteArray, base: nat)
    reads b, b.Repr
  {
    && b.Valid() && !b.littleEndian
    && b.baseSize == base && b.capacity == base && b.position == b.size == 0
  }

  /** The buffer holds exactly `data`, unread, in no more chunks than it needs. */
  ghost predicate HoldsExactly(b: ByteArray, base: nat, data: bytes)
    requires base > 0
    reads b, b.Repr
  {
    && b.Valid() && !b.littleEndian && b.baseSize == base
    && b.position == 0 && b.Readable() == data && (b.Tight() <==> Full(|data|, base))
  }
}
