/** frontend/proxy-server.js: cutting a TCP byte stream, delivered in arbitrary
    chunks, into whole messages. */
module Reassembly {
  import opened Bits
  import opened Wire

  /** Number(...) is exact below this bound, which no buffer can reach. */
  const MAX_SAFE: int := 0x20_0000_0000_0000

  // ---------- what the loop computes ----------

  datatype Cut = Cut(messages: seq<seq<byte>>, rest: seq<byte>)

  function Split(buffer: seq<byte>): (r: Cut)
    decreases |buffer|
  {
    if |buffer| < 9 || |buffer| < 9 + LengthField(buffer) then Cut([], buffer)
    else
      var total := 9 + LengthField(buffer);
      var after := Split(buffer[total..]);
      Cut([buffer[..total]] + after.messages, after.rest)
  }

  function Concat(parts: seq<seq<byte>>): (r: seq<byte>) {
    if parts == [] then [] else parts[0] + Concat(parts[1..])
  }

  /** One whole message: a header and as many bytes as its length field says. */
  ghost predicate IsMessage(m: seq<byte>) {
    |m| >= 9 && |m| == 9 + LengthField(m)
  }

  /** Too short to hold the message it starts. */
  ghost predicate Incomplete(rest: seq<byte>) {
    |rest| < 9 || |rest| < 9 + LengthField(rest)
  }

  // ---------- the stream ----------

  lemma LengthFieldPrefix(a: seq<byte>, b: seq<byte>)
    requires |a| >= 9
    ensures LengthField(a + b) == LengthField(a)
  {
    assert (a + b)[1..9] == a[1..9];
  }

  lemma SplitFirst(m: seq<byte>, more: seq<byte>)
    requires IsMessage(m)
    ensures Split(m + more) == Cut([m] + Split(more).messages, Split(more).rest)
  {
    LengthFieldPrefix(m, more);
    hide LengthField;
    assert (m + more)[..|m|] == m && (m + more)[|m|..] == more;
  }

  lemma SplitNothing(rest: seq<byte>)
    requires Incomplete(rest)
    ensures Split(rest) == Cut([], rest)
  {
    hide LengthField;
  }

  /** A buffer that is not incomplete starts with a whole message. */
  lemma FirstMessage(buffer: seq<byte>) returns (m: seq<byte>, more: seq<byte>)
    requires !Incomplete(buffer)
    ensures buffer == m + more && IsMessage(m) && |more| < |buffer|
  {
    var total := 9 + LengthField(buffer);
    m, more := buffer[..total], buffer[total..];
    assert m[1..9] == buffer[1..9];
  }

  lemma ConcatCons(m: seq<byte>, messages: seq<seq<byte>>)
    ensures Concat([m] + messages) == m + Concat(messages)
  {
    assert ([m] + messages)[1..] == messages;
  }

  /** No byte is lost, added or reordered, and every piece is one whole message. */
  lemma {:induction false} SplitConserves(buffer: seq<byte>)
    ensures Concat(Split(buffer).messages) + Split(buffer).rest == buffer
    ensures forall m :: m in Split(buffer).messages ==> IsMessage(m)
    ensures Incomplete(Split(buffer).rest)
    decreases |buffer|
  {
    hide Split, Concat, LengthField, Incomplete, IsMessage;
    if Incomplete(buffer) {
      SplitNothing(buffer);
      ConcatNothing();
      assert [] + buffer == buffer;
    } else {
      var first, more := FirstMessage(buffer);
      var after := Split(more);
      SplitConserves(more);
      SplitFirst(first, more);
      ConcatCons(first, after.messages);
      assert first + Concat(after.messages) + after.rest == first + (Concat(after.messages) + after.rest);
    }
  }

  lemma ConcatNothing()
    ensures Concat([]) == []
  {
  }

  /** There is no other way to cut the stream. */
  lemma {:induction false} SplitUnique(messages: seq<seq<byte>>, rest: seq<byte>)
    requires (forall m :: m in messages ==> IsMessage(m)) && Incomplete(rest)
    ensures Split(Concat(messages) + rest) == Cut(messages, rest)
  {
    hide Split, Concat, LengthField, Incomplete, IsMessage;
    if messages == [] {
      ConcatNothing();
      SplitNothing(rest);
      assert [] + rest == rest;
    } else {
      var m, others := messages[0], messages[1..];
      SplitUnique(others, rest);
      SplitFirst(m, Concat(others) + rest);
      ConcatCons(m, others);
      assert [m] + others == messages;
      assert m + Concat(others) + rest == m + (Concat(others) + rest);
    }
  }

  lemma {:induction false} ConcatAppend(a: seq<seq<byte>>, b: seq<seq<byte>>)
    ensures Concat(a + b) == Concat(a) + Concat(b)
  {
    if a == [] {
      assert a + b == b;
    } else {
      ConcatAppend(a[1..], b);
      assert (a + b)[1..] == a[1..] + b && (a + b)[0] == a[0];
    }
  }

  /** Cutting a stream whose beginning was already cut: the messages found first,
      then those found once the rest of the bytes is there. */
  lemma SplitResumes(a: seq<byte>, b: seq<byte>)
    ensures var first, second := Split(a), Split(Split(a).rest + b);
            Split(a + b) == Cut(first.messages + second.messages, second.rest)
  {
    hide Split, Concat, LengthField, Incomplete, IsMessage;
    var first, second := Split(a), Split(Split(a).rest + b);
    SplitConserves(a);
    SplitConserves(first.rest + b);
    ConcatAppend(first.messages, second.messages);
    var all := first.messages + second.messages;
    calc {
      Concat(all) + second.rest;
      Concat(first.messages) + (Concat(second.messages) + second.rest);
      Concat(first.messages) + (first.rest + b);
      (Concat(first.messages) + first.rest) + b;
      a + b;
    }
    SplitUnique(all, second.rest);
  }

  // ---------- chunked delivery ----------

  /** What a client holds and has handed on. */
  datatype Client = Client(delivered: seq<seq<byte>>, buffer: seq<byte>)

  function Receive(c: Client, data: seq<byte>): (r: Client) {
    var cut := Split(c.buffer + data);
    Client(c.delivered + cut.messages, cut.rest)
  }

  /** The state after the given chunks, delivered one by one. */
  function AfterChunks(chunks: seq<seq<byte>>): (r: Client) {
    if chunks == [] then Client([], [])
    else Receive(AfterChunks(chunks[..|chunks| - 1]), chunks[|chunks| - 1])
  }

  /** However a byte stream is cut into chunks, the client ends up with the messages
      and the residue of the whole stream. */
  lemma {:induction false} ChunkingIrrelevant(chunks: seq<seq<byte>>)
    ensures var c, cut := AfterChunks(chunks), Split(Concat(chunks));
            c.delivered == cut.messages && c.buffer == cut.rest
  {
    if chunks == [] {
    } else {
      var init, last := chunks[..|chunks| - 1], chunks[|chunks| - 1];
      ChunkingIrrelevant(init);
      ConcatAppend(init, [last]);
      assert init + [last] == chunks && Concat([last]) == last + Concat([]) == last;
      SplitResumes(Concat(init), last);
    }
  }

  /** So two deliveries of the same bytes cannot be told apart. */
  lemma SameBytesSameMessages(a: seq<seq<byte>>, b: seq<seq<byte>>)
    requires Concat(a) == Concat(b)
    ensures AfterChunks(a) == AfterChunks(b)
  {
    ChunkingIrrelevant(a);
    ChunkingIrrelevant(b);
  }

  /** Whole messages sent back to back arrive as sent, in any chunks. */
  lemma MessagesArrive(sent: seq<seq<byte>>, chunks: seq<seq<byte>>)
    requires (forall m :: m in sent ==> IsMessage(m)) && Concat(chunks) == Concat(sent)
    ensures AfterChunks(chunks) == Client(sent, [])
  {
    ChunkingIrrelevant(chunks);
    SplitUnique(sent, []);
    assert Concat(sent) + [] == Concat(sent);
  }

  // ---------- the event handler ----------

  class TcpClient {
    var buffer: seq<byte>
    /** The messages handed to handleTCPResponse so far. */
    var delivered: seq<seq<byte>>

    constructor ()
      ensures Client(delivered, buffer) == AfterChunks([])
    {
      buffer, delivered := [], [];
    }

    method OnData(data: seq<byte>)
      requires |buffer| + |data| < MAX_SAFE
      modifies this
      ensures Client(delivered, buffer) == Receive(old(Client(delivered, buffer)), data)
    {
      buffer := buffer + data;
      ghost var all, before := buffer, delivered;
      while |buffer| >= 9
        invariant before + Split(all).messages == delivered + Split(buffer).messages
        invariant Split(all).rest == Split(buffer).rest
        decreases |buffer|
      {
        var messageLength := NumberOf(buffer[1..9]);
        var totalMessageLength := 9 + messageLength;
        if |buffer| >= totalMessageLength {
          var message := buffer[..totalMessageLength];
          ghost var now := buffer;
          buffer := buffer[totalMessageLength..];
          delivered := delivered + [message];
          assert Split(now).messages == [message] + Split(buffer).messages;
        } else {
          break;
        }
      }
    }
  }
}
