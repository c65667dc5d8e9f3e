/** The two receive buffers, and the byte stream behind them.

    The blocking buffer pulls from its socket whenever a parser needs more than it holds; the asyncio buffer only
    holds what was appended to it, and can be copied. */
module Buffers {
  import opened Protocol
  import opened Options

  /** Advancing the read position by n takes n bytes off the front of what is unread. */
  lemma TakeFrom(rb: bytes, pos: nat, n: nat, pending: bytes)
    requires pos + n <= |rb|
    ensures (rb[pos..] + pending)[..n] == rb[pos..pos + n]
    ensures (rb[pos..] + pending)[n..] == rb[pos + n..] + pending
  {
  }

  function Flatten(chunks: seq<bytes>): bytes {
    if chunks == [] then [] else chunks[0] + Flatten(chunks[1..])
  }

  /** A connection to the server: what it will send, sliced in any way, and what was sent to it. */
  class ByteStream {
    var chunks: seq<bytes>
    var sent: bytes

    constructor (chunks: seq<bytes>)
      requires forall i :: 0 <= i < |chunks| ==> chunks[i] != []
      ensures Valid() && this.chunks == chunks && sent == []
    {
      this.chunks, sent := chunks, [];
    }

    ghost predicate Valid()
      reads this
    {
      forall i :: 0 <= i < |chunks| ==> chunks[i] != []
    }

    ghost function Pending(): bytes
      reads this
    {
      Flatten(chunks)
    }

    /** recv(limit): some bytes, or none when the stream has ended. */
    method Receive(limit: nat) returns (data: bytes)
      requires Valid() && 0 < limit
      modifies this
      ensures Valid() && sent == old(sent)
      ensures old(Pending()) == data + Pending() && |data| <= limit
      ensures data == [] <==> old(Pending()) == []
    {
      if chunks == [] {
        return [];
      }
      var first := chunks[0];
      if |first| <= limit {
        chunks := chunks[1..];
        return first;
      }
      data := first[..limit];
      chunks := chunks[0 := first[limit..]];
      assert chunks[1..] == old(chunks)[1..];
    }

    /** send(s): some prefix of s is accepted. */
    method Send(s: bytes) returns (done: nat)
      requires s != []
      modifies this`sent
      ensures 1 <= done <= |s| && sent == old(sent) + s[..done]
    {
      done :| 1 <= done <= |s|;
      sent := sent + s[..done];
    }
  }

  class ReceiveBuffer {
    const socket: ByteStream
    var rb: bytes
    var rbLen: nat
    var rbPos: nat

    constructor (socket: ByteStream)
      requires socket.Valid()
      ensures Valid() && this.socket == socket && Contents() == socket.Pending()
    {
      this.socket := socket;
      rb, rbLen, rbPos := [], 0, 0;
    }

    ghost predicate Valid()
      reads this, socket
    {
      rbLen == |rb| && rbPos <= rbLen && socket.Valid()
    }

    /** Everything that is still to be read: the unread part of the buffer, then the socket. */
    ghost function Contents(): bytes
      requires Valid()
      reads this, socket
    {
      rb[rbPos..] + socket.Pending()
    }

    method EnsureReceiveBufferSize(size: nat) returns (ok: bool)
      requires Valid()
      modifies this, socket
      ensures Valid() && Contents() == old(Contents()) && socket.sent == old(socket.sent)
      ensures ok <==> size <= |Contents()|
      ensures ok ==> size <= rbLen - rbPos
    {
      var present := rbLen - rbPos;
      while present < size
        invariant Valid() && present == rbLen - rbPos
        invariant Contents() == old(Contents()) && socket.sent == old(socket.sent)
        decreases |socket.Pending()|
      {
        var needed := size - present;
        var wanted := if needed < 128 then 128 else needed;
        ghost var held := rb[rbPos..];
        var data := socket.Receive(wanted);
        if |data| == 0 {
          return false;
        }
        rb := rb[rbPos..] + data;
        assert held + (data + socket.Pending()) == rb + socket.Pending();
        rbPos := 0;
        rbLen := |rb|;
        present := rbLen;
      }
      return true;
    }

    method ReceiveString(length: nat) returns (s: Option<bytes>)
      requires Valid()
      modifies this, socket
      ensures Valid() && socket.sent == old(socket.sent)
      ensures s == if length <= |old(Contents())| then Some(old(Contents())[..length]) else None
      ensures Contents() == if s.Some? then old(Contents())[length..] else old(Contents())
    {
      var ok := EnsureReceiveBufferSize(length);
      if !ok {
        return None;
      }
      s := Some(rb[rbPos..rbPos + length]);
      TakeFrom(rb, rbPos, length, socket.Pending());
      rbPos := rbPos + length;
    }

    method ReceiveChar() returns (c: Option<byte>)
      requires Valid()
      modifies this, socket
      ensures Valid() && socket.sent == old(socket.sent)
      ensures c == if old(Contents()) != [] then Some(old(Contents())[0]) else None
      ensures Contents() == if c.Some? then old(Contents())[1..] else old(Contents())
    {
      var ok := EnsureReceiveBufferSize(1);
      if !ok {
        return None;
      }
      c := Some(rb[rbPos]);
      rbPos := rbPos + 1;
    }
  }

  class AioReceiveBuffer {
    var rb: bytes
    var rbLen: nat
    var rbPos: nat

    constructor ()
      ensures Valid() && Current() == []
    {
      rb, rbLen, rbPos := [], 0, 0;
    }

    ghost predicate Valid()
      reads this
    {
      rbLen == |rb| && rbPos <= rbLen
    }

    function Current(): bytes
      requires Valid()
      reads this
    {
      rb[rbPos..]
    }

    method Copy() returns (c: AioReceiveBuffer)
      requires Valid()
      ensures fresh(c) && c.Valid() && c.Current() == Current()
    {
      c := new AioReceiveBuffer();
      c.rb, c.rbLen, c.rbPos := rb, rbLen, rbPos;
    }

    method Append(data: bytes)
      requires Valid()
      modifies this
      ensures Valid() && Current() == old(Current()) + data
    {
      rb := rb[rbPos..] + data;
      rbPos := 0;
      rbLen := |rb|;
    }

    method ReceiveString(length: nat) returns (s: Option<bytes>)
      requires Valid()
      modifies this`rbPos
      ensures Valid()
      ensures s == if length <= |old(Current())| then Some(old(Current())[..length]) else None
      ensures Current() == if s.Some? then old(Current())[length..] else old(Current())
    {
      var present := rbLen - rbPos;
      if present < length {
        return None;
      }
      s := Some(rb[rbPos..rbPos + length]);
      TakeFrom(rb, rbPos, length, []);
      assert forall b: bytes :: b + [] == b;
      rbPos := rbPos + length;
    }
  }
}
