/** A stream socket and the two loops of message_handling_optimized.c that turn
    short transfers into whole ones. */
module Sockets {
  import opened Bits

  class Socket {
    /** Bytes not yet read; an empty sequence is the end of the stream. */
    var incoming: seq<byte>
    var sent: seq<byte>

    constructor (incoming: seq<byte>)
      ensures this.incoming == incoming && sent == []
    {
      this.incoming, sent := incoming, [];
    }

    /** `read`: at least one byte unless the stream has ended, at most `count`. */
    method Read(count: nat) returns (chunk: seq<byte>)
      requires count > 0
      modifies this`incoming
      ensures chunk + incoming == old(incoming) && |chunk| <= count
      ensures old(incoming) != [] ==> chunk != []
    {
      if incoming == [] {
        return [];
      }
      assert 1 <= 1 <= count && 1 <= |incoming|;
      var n: nat :| 1 <= n <= count && n <= |incoming|;
      chunk := incoming[..n];
      incoming := incoming[n..];
    }

    /** `send`: some of the bytes, at least one. */
    method Send(data: seq<byte>) returns (n: nat)
      requires data != []
      modifies this`sent
      ensures 1 <= n <= |data| && sent == old(sent) + data[..n]
    {
      assert 1 <= 1 <= |data|;
      n :| 1 <= n <= |data|;
      sent := sent + data[..n];
    }
  }

  /** Either all `count` bytes arrive, or the stream ends first and 0 is returned. */
  method ReadFull(sock: Socket, buf: array<byte>, count: nat) returns (n: nat)
    requires count <= buf.Length
    modifies sock`incoming, buf
    ensures count <= |old(sock.incoming)| ==>
              n == count && buf[..count] == old(sock.incoming)[..count] && sock.incoming == old(sock.incoming)[count..]
    ensures count > |old(sock.incoming)| ==> n == 0 && sock.incoming == []
  {
    var total := 0;
    ghost var all := sock.incoming;
    while total < count
      invariant 0 <= total <= count && total <= |all|
      invariant buf[..total] == all[..total] && sock.incoming == all[total..]
    {
      var chunk := sock.Read(count - total);
      if |chunk| == 0 {
        return 0;
      }
      assert all[total..] == chunk + sock.incoming;
      assert all == all[..total] + all[total..] == all[..total] + chunk + sock.incoming;
      forall i | 0 <= i < |chunk| {
        buf[total + i] := chunk[i];
      }
      assert buf[..total + |chunk|] == all[..total] + chunk;
      total := total + |chunk|;
    }
    return total;
  }

  /** All bytes are sent, in order, however few go out at a time. */
  method SendAll(sock: Socket, buf: seq<byte>) returns (n: nat)
    modifies sock`sent
    ensures n == |buf| && sock.sent == old(sock.sent) + buf
  {
    var total := 0;
    assert old(sock.sent) + buf[..0] == sock.sent;
    while total < |buf|
      invariant 0 <= total <= |buf| && sock.sent == old(sock.sent) + buf[..total]
    {
      var k := sock.Send(buf[total..]);
      assert buf[..total] + buf[total..][..k] == buf[..total + k];
      total := total + k;
    }
    assert buf[..total] == buf;
    return total;
  }
}
