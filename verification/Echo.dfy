/** The echo service from end to end: request bytes, server, reply bytes, proxy. */
module Echo {
  import opened Bits
  import opened Wrappers
  import opened Wire
  import opened PrefixCode
  import opened Compression
  import opened Messages
  import opened Sockets
  import opened Requests
  import opened JsDecompressor
  import opened Responses
  import Reassembly

  // ---------- the reply ----------

  /** The payload is compressed when that is asked for and not already done. */
  function ReplyPayload(d: Dictionary, compression: bool, requiresCompression: bool, payload: seq<byte>): (r: seq<byte>)
    requires |d| == 256
  {
    if requiresCompression && !compression then Compressed(d, payload) else payload
  }

  function ReplyHeader(requiresCompression: bool): (r: byte) {
    if requiresCompression then 0x18 else 0x10
  }

  /** What the server sends back for a message it has received. */
  function Reply(d: Dictionary, compression: bool, requiresCompression: bool, payload: seq<byte>): (r: seq<byte>)
    requires |d| == 256
  {
    MessageBytes(ReplyHeader(requiresCompression), ReplyPayload(d, compression, requiresCompression, payload))
  }

  method SendEcho(sock: Socket, input: Message, compressor: Dictionary)
    requires WellFormed(compressor) && input.Valid()
    requires input.requiresCompression && !input.compression ==>
               |input.buffer| <= INT_MAX && |Encode(compressor, input.buffer)| <= INT_MAX
    modifies sock`sent, input`length, input`buffer
    ensures sock.sent == old(sock.sent) +
              Reply(compressor, input.compression, input.requiresCompression, old(input.buffer))
  {
    hide Compressed, BytesOf, Encode;
    var header: byte;
    if input.requiresCompression {
      header := 0x18;
      if !input.compression {
        Compress(input, compressor);
      }
    } else {
      header := 0x10;
    }
    var full := [header] + BytesOf(input.length, 8);
    if input.length > 0 {
      full := full + input.buffer;
    }
    var n := SendAll(sock, full);
  }

  // ---------- meaning ----------

  /** A client says m: as it is, or as a frame with the compression bit set. */
  function Request(d: Dictionary, compression: bool, requiresCompression: bool, m: seq<byte>): (r: seq<byte>)
    requires |d| == 256
  {
    MessageBytes(HeaderByte(0, compression, requiresCompression), if compression then Compressed(d, m) else m)
  }

  /** The payload of the reply to a request that says m. */
  function EchoedPayload(d: Dictionary, c: bool, r: bool, m: seq<byte>): (result: seq<byte>)
    requires |d| == 256
  {
    ReplyPayload(d, c, r, Payload(d, 0, c, r, if c then Compressed(d, m) else m))
  }

  lemma {:induction false} EchoedMeaning(d: Dictionary, c: bool, r: bool, m: seq<byte>)
    requires WellFormed(d) && PrefixFree(d) && NonemptyCodes(d)
    ensures (if r then JsDecompressed(Some(d), EchoedPayload(d, c, r, m)) else EchoedPayload(d, c, r, m)) == m <==>
            !(m == [] && c && !r)
    ensures |EchoedPayload(d, c, r, m)| <= |m| || |EchoedPayload(d, c, r, m)| <= |Compressed(d, m)|
  {
    hide Decompressed, JsDecompressed, Encode;
    EncodeNothing(d);
    DecompressedFrame(d, Encode(d, m));
    RoundTrip(d, m);
    InvertsCompress(d, m);
    assert Compressed(d, m) != [];
  }

  /** The server's view of an echo request: one whole message. */
  lemma EchoRequestRead(d: Dictionary, c: bool, r: bool, raw: seq<byte>)
    requires |raw| < Pow256(8)
    ensures ReadRequest(d, MessageBytes(HeaderByte(0, c, r), raw)) ==
            Reading(Full(0, c, r, Payload(d, 0, c, r, raw)), [])
  {
    hide Payload, MessageBytes, LengthField, HeaderByte, KindOf, ShiftedBit;
    HeaderRoundTrip(0, c, r);
    MessageFields(HeaderByte(0, c, r), raw, []);
    assert MessageBytes(HeaderByte(0, c, r), raw) + [] == MessageBytes(HeaderByte(0, c, r), raw);
  }

  lemma ReplyRead(header: byte, payload: seq<byte>)
    requires |payload| < Pow256(8)
    ensures var b := MessageBytes(header, payload);
            Reassembly.IsMessage(b) && b[0] == header && b[9..] == payload
  {
    hide MessageBytes, LengthField;
    MessageFields(header, payload, []);
    assert MessageBytes(header, payload) + [] == MessageBytes(header, payload);
  }

  lemma ReplyHeaderBits(r: bool)
    ensures ReplyHeader(r) == HeaderByte(1, r, false)
    ensures ShiftedBit(ReplyHeader(r), 3) == r && KindOf(ReplyHeader(r)) == 1
    ensures ReplyHeader(r) == if r then 0x18 else 0x10
  {
    HeaderValue(1, r, false);
    HeaderRoundTrip(1, r, false);
  }

  /** Under all four settings of the two compression bits the payload that the proxy
      hands on is what the client said, except for an empty message sent compressed
      with a plain answer asked for: the server's decoder leaves that frame as it is.
      (The server's methods are these functions for messages within the C counters.) */
  lemma {:induction false} EchoPreservesMeaning(d: Dictionary, c: bool, r: bool, m: seq<byte>)
    requires WellFormed(d) && PrefixFree(d) && NonemptyCodes(d)
    requires |m| < Pow256(8) && |Compressed(d, m)| < Pow256(8)
    ensures var received := ReadRequest(d, Request(d, c, r, m)).message;
            && received.Full? && received.kind == 0
            && var reply := Reply(d, received.compression, received.requiresCompression, received.payload);
            && Reassembly.IsMessage(reply)
            && reply[0] == (if r then 0x18 else 0x10)
            && (Handled(Some(d), reply) == Echoed(m) <==> !(m == [] && c && !r))
  {
    hide Payload, ReplyPayload, MessageBytes, ReadRequest, Compressed, JsDecompressed, ReplyHeader, ShiftedBit;
    EchoRequestRead(d, c, r, if c then Compressed(d, m) else m);
    ReplyHeaderBits(r);
    EchoedMeaning(d, c, r, m);
    ReplyRead(ReplyHeader(r), EchoedPayload(d, c, r, m));
  }

  /** From text typed to the bytes handed on for display: they are the text's bytes
      exactly when it is ASCII, with or without a compressed answer. */
  lemma {:induction false} TypedTextIff(d: Dictionary, t: text, compress: bool)
    requires WellFormed(d) && PrefixFree(d) && NonemptyCodes(d)
    requires |Utf8(t)| < Pow256(8)
    requires JsLength(t) <= |Utf8(t)| ==> |Compressed(d, Utf8(t)[..JsLength(t)])| < Pow256(8)
    ensures var received := ReadRequest(d, Printed(Command.Echo(t, compress))).message;
            && received.Full? && received.kind == 0
            && var reply := Reply(d, received.compression, received.requiresCompression, received.payload);
            && Reassembly.IsMessage(reply)
            && (Handled(Some(d), reply) == Echoed(Utf8(t)) <==> IsAscii(t))
  {
    hide Payload, ReplyPayload, MessageBytes, ReadRequest, Printed, Compressed, JsDecompressed, ReplyHeader, ShiftedBit,
         Utf8, JsLength, IsAscii, PrefixFree, NonemptyCodes, Decompressed;
    Truncated(d, Command.Echo(t, compress), 0, t, compress);
    var m := Utf8(t)[..JsLength(t)];
    PlainPayload(d, compress, m);
    ReplyHeaderBits(compress);
    EchoedMeaning(d, false, compress, m);
    ReplyRead(ReplyHeader(compress), EchoedPayload(d, false, compress, m));
  }

  lemma PlainPayload(d: Dictionary, r: bool, m: seq<byte>)
    requires |d| == 256
    ensures EchoedPayload(d, false, r, m) == ReplyPayload(d, false, r, m)
  {
  }
}
