/** `Buffer`: a fixed array with a fill index. */
module Buffers {
  import opened Bytes

  const LOG_BUFFER_SIZE: nat := 2048

  class Buffer {
    const SIZE: nat
    const buffer: array<byte>
    var curIndex: nat
    ghost var text: bytes  // what has been appended since the last clear

    ghost predicate Valid()
      reads this, buffer
    {
      buffer.Length == SIZE && curIndex <= SIZE && text == buffer[..curIndex]
    }

    constructor (size: nat)
      ensures Valid() && SIZE == size && text == [] && fresh(buffer)
    {
      SIZE := size;
      buffer := new byte[size](_ => 0);
      curIndex := 0;
      text := [];
    }

    function Avail(): (n: nat)
      requires Valid()
      reads this, buffer
      ensures n == SIZE - |text|
    {
      SIZE - curIndex
    }

    function Size(): (n: nat)
      requires Valid()
      reads this, buffer
      ensures n == |text|
    {
      curIndex
    }

    /** `data()` with `size()`. */
    function Data(): (bs: bytes)
      requires Valid()
      reads this, buffer
      ensures bs == text
    {
      buffer[..curIndex]
    }

    /** All of the text or nothing of it. */
    method Append(str: bytes) returns (ok: bool)
      requires Valid()
      modifies this, buffer
      ensures Valid() && (ok <==> |str| <= SIZE - |old(text)|)
      ensures text == if ok then old(text) + str else old(text)
    {
      if |str| > Avail() {
        return false;
      }
      forall i | 0 <= i < |str| {
        buffer[curIndex + i] := str[i];
      }
      curIndex := curIndex + |str|;
      text := text + str;
      return true;
    }

    method Clear()
      requires Valid()
      modifies this, buffer
      ensures Valid() && text == []
    {
      forall i | 0 <= i < buffer.Length {
        buffer[i] := 0;
      }
      curIndex := 0;
      text := [];
    }
  }
}
