/** `TcpClient::send_msg`: what the socket does not take is kept for the next call. */
module TcpClients {
  import opened Buffers
  import opened Bytes
  import opened Chunks

  const BUFFER_SIZE: nat := 2048 * 1024

  /** What `send` answers: it takes up to `n` of the bytes offered, or `EWOULDBLOCK`, or
      `EINTR`, or another error. A socket with no answer left reports an error. */
  datatype Reply = Takes(n: nat) | WouldBlock | Interrupted | Error

  lemma TakeMore(all: bytes, sent: nat, n: nat)
    requires sent + n <= |all|
    ensures all[..sent] + all[sent..][..n] == all[..sent + n]
  {
  }

  lemma NextDue(before: bytes, flat: bytes, msg: bytes, all: bytes, done: bytes, kept: bytes)
    requires done + kept == before + flat && flat + msg <= all
    ensures done + kept + msg == before + (flat + msg)
    ensures done + (kept + msg) <= before + all
  {
    var more := all[|flat + msg|..];
    assert all == flat + msg + more;
    assert before + all == before + flat + msg + more;
    assert done + (kept + msg) == done + kept + msg;
  }

  class TcpClient {
    const buffer: Buffer
    var replies: seq<Reply>
    var accepted: bytes  // by the socket, since the beginning

    ghost predicate Valid()
      reads this, buffer, buffer.buffer
    {
      buffer.Valid() && buffer.SIZE == BUFFER_SIZE
    }

    constructor (replies: seq<Reply>)
      ensures Valid() && accepted == [] && buffer.text == [] && fresh(buffer) && fresh(buffer.buffer)
      ensures this.replies == replies
    {
      buffer := new Buffer(BUFFER_SIZE);
      this.replies := replies;
      accepted := [];
    }

    /** The system call. */
    method Send(data: bytes) returns (ret: int, reply: Reply)
      requires data != []
      modifies `replies, `accepted
      ensures reply == if old(replies) == [] then Error else old(replies)[0]
      ensures replies == if old(replies) == [] then [] else old(replies)[1..]
      ensures ret == if reply.Takes? then Min(reply.n, |data|) else -1
      ensures accepted == old(accepted) + (if ret > 0 then data[..ret] else [])
    {
      if |replies| == 0 {
        return -1, Error;
      }
      reply := replies[0];
      replies := replies[1..];
      if reply.Takes? {
        ret := Min(reply.n, |data|);
        accepted := accepted + data[..ret];
      } else {
        ret := -1;
      }
    }

    /** A successful call loses nothing and sends nothing twice: what the socket has taken
        and what is kept for later are all the bytes handed over, in their order. A call
        that finds no room drops what was kept, and one that the socket fails keeps even
        the bytes that the socket took. */
    method SendMsg(msg: bytes) returns (ok: bool)
      requires Valid()
      modifies this, buffer, buffer.buffer
      ensures Valid()
      ensures accepted <= old(accepted) + (old(buffer.text) + msg)
      ensures ok ==> accepted + buffer.text == old(accepted) + old(buffer.text) + msg
      ensures ok && buffer.text != [] ==>
        exists k :: 0 <= k < |old(replies)| && old(replies)[k] == WouldBlock && replies == old(replies)[k + 1..]
      ensures !ok ==>
        if |msg| == 0 then accepted == old(accepted) && buffer.text == old(buffer.text)
        else if |old(buffer.text)| + |msg| > 2_097_152 then accepted == old(accepted) && buffer.text == []
        else buffer.text == old(buffer.text) + msg && exists sent ::
            sent <= buffer.text && sent != buffer.text && accepted == old(accepted) + sent
    {
      hide Buffer.Valid;
      if |msg| == 0 {
        return false;
      }
      if buffer.Avail() < |msg| {
        buffer.Clear();
        return false;
      }
      var fits := buffer.Append(msg);
      ghost var all := accepted + buffer.text;
      ok := Drain();
      if ok {
        assert accepted <= accepted + buffer.text == all;
      } else {
        ghost var sent :| sent <= buffer.text && accepted == old(accepted) + sent;
        assert buffer.text == sent + buffer.text[|sent|..];
        assert all == accepted + buffer.text[|sent|..];
      }
    }

    /** The loop, which offers the whole buffer until it is taken, refused or failed. */
    method Drain() returns (ok: bool)
      requires Valid() && buffer.text != []
      modifies this, buffer, buffer.buffer
      ensures Valid()
      ensures ok ==> accepted + buffer.text == old(accepted) + old(buffer.text)
      ensures ok && buffer.text != [] ==>
        exists k :: 0 <= k < |old(replies)| && old(replies)[k] == WouldBlock && replies == old(replies)[k + 1..]
      ensures !ok ==> buffer.text == old(buffer.text)
      ensures !ok ==> exists sent :: sent <= buffer.text && sent != buffer.text && accepted == old(accepted) + sent
      ensures !ok ==> replies == [] || exists k ::
        && 0 <= k < |old(replies)| && (old(replies)[k] == Error || old(replies)[k] == Takes(0))
        && replies == old(replies)[k + 1..]
    {
      hide Buffer.Valid, Buffer.Data, Buffer.Size, Buffer.Avail;
      ghost var all := buffer.text;
      var sent := 0;
      ghost var used := 0;
      while true
        invariant Valid() && buffer.text == all && 0 <= sent < |all|
        invariant accepted == old(accepted) + all[..sent]
        invariant used <= |old(replies)| && replies == old(replies)[used..]
        decreases |replies|
      {
        var ret, reply := Send(buffer.Data()[sent..]);
        if reply == Error || ret == 0 {
          assert used < |old(replies)| ==> replies == old(replies)[used + 1..];
          return false;
        }
        used := used + 1;
        if reply == WouldBlock {
          Keep(sent);
          assert old(replies)[used - 1] == WouldBlock;
          return true;
        } else if reply == Interrupted {
          continue;
        }
        TakeMore(all, sent, ret);
        sent := sent + ret;
        if sent == buffer.Size() {
          buffer.Clear();
          return true;
        }
      }
    }

    /** The bytes not yet taken move to the front of the buffer. */
    method Keep(sent: nat)
      requires Valid() && sent <= |buffer.text|
      modifies buffer, buffer.buffer
      ensures Valid() && buffer.text == old(buffer.text)[sent..]
    {
      var data := buffer.Data()[sent..];
      buffer.Clear();
      var fits := buffer.Append(data);
    }

    /** Over any run of calls, whatever the socket answers: as long as all succeed, what
        was accepted followed by what is kept is the concatenation of the messages; and up
        to the end of the first call that fails the socket has taken a prefix of it. */
    method SendMsgs(msgs: seq<bytes>) returns (ok: bool)
      requires Valid() && buffer.text == []
      modifies this, buffer, buffer.buffer
      ensures Valid()
      ensures ok ==> accepted + buffer.text == old(accepted) + Flat(msgs)
      ensures accepted <= old(accepted) + Flat(msgs)
    {
      var i := 0;
      while i < |msgs|
        invariant Valid() && 0 <= i <= |msgs|
        invariant accepted + buffer.text == old(accepted) + Flat(msgs[..i])
      {
        FlatNext(msgs, i);
        FlatPrefix(msgs, i + 1);
        NextDue(old(accepted), Flat(msgs[..i]), msgs[i], Flat(msgs), accepted, buffer.text);
        ok := SendMsg(msgs[i]);
        if !ok {
          return false;
        }
        i := i + 1;
      }
      assert msgs[..i] == msgs;
      assert accepted <= accepted + buffer.text;
      return true;
    }
  }
}
