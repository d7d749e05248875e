/** Requests: how the proxy prints them and how the server parses them. */
module Requests {
  import opened Bits
  import opened Wire
  import opened PrefixCode
  import opened Compression
  import opened Messages
  import opened Sockets

  // ---------- JavaScript strings ----------

  /** Unicode scalar values. */
  type scalar = n: int | (0 <= n < 0xD800) || (0xE000 <= n < 0x110000)
  type text = seq<scalar>

  /** `Buffer.from(s, 'utf8')` */
  function Utf8(t: text): (r: seq<byte>) {
    if t == [] then [] else Utf8(t[..|t| - 1]) + Utf8Scalar(t[|t| - 1])
  }

  function Utf8Scalar(c: scalar): (r: seq<byte>)
    ensures 1 <= |r| <= 4
  {
    if c < 0x80 then [c]
    else if c < 0x800 then [0xC0 + c / 64, 0x80 + c % 64]
    else if c < 0x1_0000 then [0xE0 + c / 4096, 0x80 + c / 64 % 64, 0x80 + c % 64]
    else [0xF0 + c / 262144, 0x80 + c / 4096 % 64, 0x80 + c / 64 % 64, 0x80 + c % 64]
  }

  /** `s.length`, counted in UTF-16 code units */
  function JsLength(t: text): (r: nat) {
    if t == [] then 0 else JsLength(t[..|t| - 1]) + if t[|t| - 1] < 0x1_0000 then 1 else 2
  }

  predicate IsAscii(t: text) {
    forall i :: 0 <= i < |t| ==> t[i] < 0x80
  }

  /** The string length counts the bytes exactly for ASCII text. */
  lemma {:induction false} LengthCountsBytes(t: text)
    ensures JsLength(t) <= |Utf8(t)|
    ensures JsLength(t) == |Utf8(t)| <==> IsAscii(t)
    ensures IsAscii(t) ==> Utf8(t) == t
  {
    hide IsAscii, Utf8Scalar;
    NoText(t);
    if t != [] {
      var init, last := t[..|t| - 1], t[|t| - 1];
      LengthCountsBytes(init);
      AsciiSnoc(init, last);
      assert t == init + [last];
      ScalarLength(last);
    }
  }

  predicate Continues(b: seq<int>) {
    forall i :: 1 <= i < |b| ==> 0x80 <= b[i] < 0xC0
  }

  /** b are the bytes of c: one, two, three or four by its size, six bits of it in each
      byte after the first and the others in the first. */
  predicate IsUtf8(b: seq<int>, c: scalar) {
    && Continues(b)
    && if c < 0x80 then b == [c]
       else if c < 0x800 then
         |b| == 2 && 0xC0 <= b[0] < 0xE0 && 0x40 * b[0] + b[1] == c + 0x40 * 0xC0 + 0x80
       else if c < 0x1_0000 then
         && |b| == 3 && 0xE0 <= b[0] < 0xF0
         && 0x1000 * b[0] + 0x40 * b[1] + b[2] == c + 0x1000 * 0xE0 + 0x40 * 0x80 + 0x80
       else
         && |b| == 4 && 0xF0 <= b[0] < 0xF8
         && 0x4_0000 * b[0] + 0x1000 * b[1] + 0x40 * b[2] + b[3] ==
            c + 0x4_0000 * 0xF0 + 0x1000 * 0x80 + 0x40 * 0x80 + 0x80
  }

  lemma Utf8Value(c: scalar)
    ensures IsUtf8(Utf8Scalar(c), c)
  {
    var hi, mid, lo := c / 0x1000, c / 0x40 % 0x40, c % 0x40;
    assert c == 0x40 * (c / 0x40) + lo && c / 0x40 == 0x40 * (c / 0x40 / 0x40) + mid;
    assert c / 0x40 / 0x40 == hi && hi == 0x40 * (hi / 0x40) + hi % 0x40 && hi / 0x40 == c / 0x4_0000;
  }

  /** Text is written scalar by scalar, and counted so. */
  lemma TextSnoc(t: text, c: scalar)
    ensures Utf8(t + [c]) == Utf8(t) + Utf8Scalar(c)
    ensures JsLength(t + [c]) == JsLength(t) + if c < 0x1_0000 then 1 else 2
  {
    assert (t + [c])[..|t|] == t;
  }

  lemma NoText(t: text)
    ensures t == [] ==> IsAscii(t)
  {
  }

  lemma AsciiSnoc(t: text, c: scalar)
    ensures IsAscii(t + [c]) <==> IsAscii(t) && c < 0x80
  {
    if IsAscii(t + [c]) {
      assert (t + [c])[|t|] == c;
      assert forall i :: 0 <= i < |t| ==> (t + [c])[i] == t[i];
    }
  }

  lemma ScalarLength(c: scalar)
    ensures var units := if c < 0x1_0000 then 1 else 2;
            units <= |Utf8Scalar(c)| && (units == |Utf8Scalar(c)| <==> c < 0x80) && (c < 0x80 ==> Utf8Scalar(c) == [c])
  {
  }

  // ---------- the proxy prints ----------

  datatype Command =
    | Echo(payload: text, compress: bool)
    | FileSize(payload: text, compress: bool)
    | Retrieve(payload: text, compress: bool)
    | ListFiles

  const SIMPLE_TXT: text := [0x73, 0x69, 0x6d, 0x70, 0x6c, 0x65, 0x2e, 0x74, 0x78, 0x74]
  const SAMPLE_TXT: text := [0x73, 0x61, 0x6d, 0x70, 0x6c, 0x65, 0x2e, 0x74, 0x78, 0x74]
  const TEST_TXT: text := [0x74, 0x65, 0x73, 0x74, 0x2e, 0x74, 0x78, 0x74]
  const TEST_PNG: text := [0x74, 0x65, 0x73, 0x74, 0x2e, 0x70, 0x6e, 0x67]

  function RequestSize(name: text): (r: nat) {
    if name == SIMPLE_TXT then 13
    else if name == SAMPLE_TXT then 26
    else if name == TEST_TXT then 36
    else if name == TEST_PNG then 16
    else 36
  }

  /** Session, offset, length and name of a retrieve request. */
  function RetrievePayload(session: nat, offset: nat, length: nat, name: seq<byte>): (r: seq<byte>) {
    BytesOf(session, 4) + BytesOf(offset, 8) + BytesOf(length, 8) + name
  }

  function CreateHeader(kind: nat, requiresCompression: bool, length: nat): (r: seq<byte>)
    requires kind < 16
  {
    [HeaderByte(kind, false, requiresCompression)] + BytesOf(length, 8)
  }

  /** The bytes the proxy writes for a command. */
  function Printed(c: Command): (r: seq<byte>) {
    match c
    case Echo(t, compress) => CreateHeader(0x0, compress, JsLength(t)) + Utf8(t)
    case FileSize(t, compress) => CreateHeader(0x4, compress, JsLength(t)) + Utf8(t)
    case Retrieve(t, compress) =>
      var payload := RetrievePayload(1, 0, RequestSize(t), Utf8(t));
      CreateHeader(0x6, compress, |payload|) + payload
    case ListFiles => CreateHeader(0x2, false, 0)
  }

  // ---------- the server parses ----------

  datatype Received =
    | Closed
    | Bare(kind: nat)
    | Full(kind: nat, compression: bool, requiresCompression: bool, payload: seq<byte>)

  datatype Reading = Reading(message: Received, rest: seq<byte>)

  /** A compressed payload is decoded, except that of an echo that asks for a
      compressed answer. */
  predicate Decodes(kind: nat, compression: bool, requiresCompression: bool) {
    compression && !(kind == 0 && requiresCompression)
  }

  function Payload(d: Dictionary, kind: nat, compression: bool, requiresCompression: bool, raw: seq<byte>)
    : (r: seq<byte>)
  {
    if Decodes(kind, compression, requiresCompression) && raw != [] then Decompressed(d, raw) else raw
  }

  predicate HasBody(kind: nat) {
    kind == 0 || kind == 2 || kind == 4 || kind == 6
  }

  function ReadRequest(d: Dictionary, stream: seq<byte>): (r: Reading) {
    if stream == [] then Reading(Closed, [])
    else if !HasBody(KindOf(stream[0])) then Reading(Bare(KindOf(stream[0])), stream[1..])
    else if |stream| < 9 || |stream| - 9 < LengthField(stream) then Reading(Closed, [])
    else
      var kind, c, r := KindOf(stream[0]), ShiftedBit(stream[0], 3), ShiftedBit(stream[0], 2);
      var n := LengthField(stream);
      Reading(Full(kind, c, r, Payload(d, kind, c, r, stream[9..9 + n])), stream[9 + n..])
  }

  /** If the next message is a whole one that will be decoded, it holds a frame that
      the decoder can take. */
  ghost predicate Decodable(stream: seq<byte>) {
    |stream| >= 9 && HasBody(KindOf(stream[0])) && |stream| - 9 >= LengthField(stream)
    && Decodes(KindOf(stream[0]), ShiftedBit(stream[0], 3), ShiftedBit(stream[0], 2)) ==>
      LengthField(stream) > 0 && TotalBits(stream[9..9 + LengthField(stream)]) <= INT_MAX
  }

  /** The message as the server holds it. */
  ghost predicate Holds(msg: Message?, r: Received)
    reads msg
  {
    match r
    case Closed => msg == null
    case Bare(kind) => msg != null && msg.kind == kind
    case Full(kind, c, q, payload) =>
      msg != null && msg.Valid() && msg.kind == kind && msg.compression == c
      && msg.requiresCompression == q && msg.buffer == payload
  }

  method GetDescription(sock: Socket, dict: Dictionary) returns (msg: Message?)
    requires WellFormed(dict) && Decodable(sock.incoming)
    modifies sock`incoming
    ensures Holds(msg, ReadRequest(dict, old(sock.incoming)).message)
    ensures sock.incoming == ReadRequest(dict, old(sock.incoming)).rest
    ensures msg != null ==> fresh(msg)
    ensures var all := old(sock.incoming);
            all != [] && all[0] / 16 !in {0, 2, 4, 6} ==>
              msg != null && msg.kind == all[0] / 16 && sock.incoming == all[1..]
  {
    hide Decompressed, NumberOf, Shr, Bit, And;
    HeaderLayout(0, false, false);
    ghost var all := sock.incoming;
    var first := sock.Read(1);
    if |first| != 1 {
      return null;
    }
    var header := first[0];
    assert all[0] == header && sock.incoming == all[1..];
    var kind := KindOf(header);
    msg := new Message(kind, false, false, []);
    if !HasBody(kind) {
      return;
    }
    msg.compression := ShiftedBit(header, 3);
    msg.requiresCompression := ShiftedBit(header, 2);
    var complete := ReadBody(sock, msg, all);
    if !complete {
      return null;
    }
    DecodePayload(msg, dict);
  }

  /** Reads the length and then as many payload bytes. */
  method ReadBody(sock: Socket, msg: Message, ghost all: seq<byte>) returns (complete: bool)
    requires all != [] && sock.incoming == all[1..] && msg.length == 0 && msg.buffer == []
    modifies sock`incoming, msg`length, msg`buffer
    ensures complete <==> |all| >= 9 && |all| - 9 >= LengthField(all)
    ensures complete ==>
              var n := 9 + LengthField(all); msg.Valid() && msg.buffer == all[9..n] && sock.incoming == all[n..]
    ensures !complete ==> sock.incoming == []
  {
    hide NumberOf;
    var size := new byte[8];
    var n := ReadFull(sock, size, 8);
    if n != 8 {
      return false;
    }
    assert size[..8] == all[1..9] && sock.incoming == all[9..];
    msg.length := NumberOf(size[..8]);
    if msg.length > 0 {
      var buffer := new byte[msg.length];
      n := ReadFull(sock, buffer, msg.length);
      if n != msg.length {
        return false;
      }
      msg.buffer := buffer[..msg.length];
      assert msg.buffer == all[9..9 + msg.length];
    }
    return true;
  }

  method DecodePayload(msg: Message, dict: Dictionary)
    requires WellFormed(dict) && msg.Valid()
    requires Decodes(msg.kind, msg.compression, msg.requiresCompression) ==>
               msg.buffer != [] && TotalBits(msg.buffer) <= INT_MAX
    modifies msg`length, msg`buffer
    ensures msg.Valid()
    ensures msg.buffer == Payload(dict, msg.kind, msg.compression, msg.requiresCompression, old(msg.buffer))
  {
    if msg.compression {
      if msg.kind == 0 {
        if !msg.requiresCompression {
          Decompress(msg, dict);
        }
      } else {
        Decompress(msg, dict);
      }
    }
  }

  // ---------- printing and parsing undo each other ----------

  /** What the server should receive for a command. */
  function Meant(c: Command): (r: Received) {
    match c
    case Echo(t, compress) => Full(0, false, compress, Utf8(t))
    case FileSize(t, compress) => Full(4, false, compress, Utf8(t))
    case Retrieve(t, compress) => Full(6, false, compress, RetrievePayload(1, 0, RequestSize(t), Utf8(t)))
    case ListFiles => Full(2, false, false, [])
  }

  /** The commands whose header carries a string length carry ASCII text. */
  predicate LengthIsRight(c: Command) {
    match c
    case Echo(t, _) => IsAscii(t)
    case FileSize(t, _) => IsAscii(t)
    case _ => true
  }

  ghost predicate Fits(c: Command) {
    match Meant(c)
    case Full(_, _, _, payload) => |payload| < Pow256(8)
    case _ => true
  }

  lemma ReadMessage(d: Dictionary, kind: nat, requires_: bool, payload: seq<byte>, rest: seq<byte>)
    requires HasBody(kind) && |payload| < Pow256(8)
    ensures ReadRequest(d, MessageBytes(HeaderByte(kind, false, requires_), payload) + rest) ==
            Reading(Full(kind, false, requires_, payload), rest)
    ensures Decodable(MessageBytes(HeaderByte(kind, false, requires_), payload) + rest)
  {
    hide MessageBytes, LengthField, HeaderByte, KindOf, ShiftedBit;
    var h := HeaderByte(kind, false, requires_);
    HeaderRoundTrip(kind, false, requires_);
    MessageFields(h, payload, rest);
  }

  lemma PrintedIsMessage(c: Command)
    requires LengthIsRight(c)
    ensures var m := Meant(c);
            Printed(c) == MessageBytes(HeaderByte(m.kind, false, m.requiresCompression), m.payload)
  {
    hide HeaderByte, BytesOf;
    match c {
      case Echo(t, compress) => LengthCountsBytes(t);
      case FileSize(t, compress) => LengthCountsBytes(t);
      case Retrieve(_, _) =>
      case ListFiles =>
    }
  }

  /** A printed command is parsed back with its type, flag and payload, and the bytes
      after it are left for the next one. */
  lemma {:induction false} ReadPrinted(d: Dictionary, c: Command, rest: seq<byte>)
    requires LengthIsRight(c) && Fits(c)
    ensures ReadRequest(d, Printed(c) + rest) == Reading(Meant(c), rest) && Decodable(Printed(c) + rest)
  {
    var m := Meant(c);
    PrintedIsMessage(c);
    ReadMessage(d, m.kind, m.requiresCompression, m.payload, rest);
  }

  /** Text that is not ASCII is announced too short, so the server takes a truncated
      payload. A command is received as meant, with nothing left over, exactly when
      the length in its header is right. */
  lemma {:induction false} ParsedIff(d: Dictionary, c: Command)
    requires Fits(c)
    ensures ReadRequest(d, Printed(c)) == Reading(Meant(c), []) <==> LengthIsRight(c)
  {
    hide ReadRequest, Printed, Utf8, JsLength, IsAscii, Decodable;
    if LengthIsRight(c) {
      ReadPrinted(d, c, []);
      assert Printed(c) + [] == Printed(c);
    } else {
      match c {
        case Echo(t, compress) => Truncated(d, c, 0, t, compress);
        case FileSize(t, compress) => Truncated(d, c, 4, t, compress);
      }
    }
  }

  /** What the server takes of text whose header carries the string length. */
  lemma Truncated(d: Dictionary, c: Command, kind: nat, t: text, compress: bool)
    requires (kind == 0 && c == Echo(t, compress)) || (kind == 4 && c == FileSize(t, compress))
    requires |Utf8(t)| < Pow256(8)
    ensures var n, all := JsLength(t), Utf8(t);
            && n <= |all|
            && ReadRequest(d, Printed(c)) == Reading(Full(kind, false, compress, all[..n]), all[n..])
            && (all[..n] == all <==> IsAscii(t))
  {
    hide HeaderByte, MessageBytes, ReadRequest, Printed, Utf8, JsLength, IsAscii;
    LengthCountsBytes(t);
    var n, all := JsLength(t), Utf8(t);
    TextBytes(c, kind, t, compress);
    ReadMessage(d, kind, compress, all[..n], all[n..]);
    assert n == |all| ==> all[..n] == all;
  }

  lemma TextBytes(c: Command, kind: nat, t: text, compress: bool)
    requires (kind == 0 && c == Echo(t, compress)) || (kind == 4 && c == FileSize(t, compress))
    requires JsLength(t) <= |Utf8(t)|
    ensures var n, all := JsLength(t), Utf8(t);
            Printed(c) == MessageBytes(HeaderByte(kind, false, compress), all[..n]) + all[n..]
  {
    hide HeaderByte, BytesOf, Utf8, JsLength;
    var n, all, h := JsLength(t), Utf8(t), CreateHeader(kind, compress, JsLength(t));
    assert Printed(c) == h + all;
    assert all == all[..n] + all[n..];
    assert MessageBytes(HeaderByte(kind, false, compress), all[..n]) == h + all[..n];
    assert h + all == h + all[..n] + all[n..];
  }

  /** An e with an acute accent: one byte of its two is received. */
  lemma AccentCutOff(d: Dictionary)
    ensures ReadRequest(d, Printed(Echo([0xE9], false))) == Reading(Full(0, false, false, [0xC3]), [0xA9])
  {
    hide ReadRequest, Printed;
    var t: text := [0xE9];
    assert t[..0] == [];
    assert Utf8(t) == [0xC3, 0xA9] && JsLength(t) == 1;
    assert Utf8(t)[..1] == [0xC3] && Utf8(t)[1..] == [0xA9];
    assert Pow256(8) > 256 * Pow256(6);
    Truncated(d, Echo(t, false), 0, t, false);
  }

  // ---------- a pipelined sequence of requests ----------

  /** What a client may send: a command of the proxy, a compressed request that says m,
      or a single byte of any other type, as for shutdown. */
  datatype Sent =
    | FromProxy(command: Command)
    | Coded(kind: nat, requiresCompression: bool, m: seq<byte>)
    | OneByte(header: byte)

  function SentBytes(d: Dictionary, s: Sent): (r: seq<byte>)
    requires |d| == 256 && (s.Coded? ==> s.kind < 16)
  {
    match s
    case FromProxy(c) => Printed(c)
    case Coded(kind, r, m) => MessageBytes(HeaderByte(kind, true, r), Compressed(d, m))
    case OneByte(header) => [header]
  }

  /** What the server should make of it. A compressed echo that asks for a compressed
      answer is left compressed. */
  function SentMeaning(d: Dictionary, s: Sent): (r: Received)
    requires |d| == 256
  {
    match s
    case FromProxy(c) => Meant(c)
    case Coded(kind, r, m) => Full(kind, true, r, if kind == 0 && r then Compressed(d, m) else m)
    case OneByte(header) => Bare(header / 16)
  }

  ghost predicate Proper(d: Dictionary, s: Sent)
    requires |d| == 256
  {
    match s
    case FromProxy(c) => LengthIsRight(c) && Fits(c)
    case Coded(kind, _, m) => kind in {0, 2, 4, 6} && m != [] && |Compressed(d, m)| < Pow256(8)
    case OneByte(header) => header / 16 !in {0, 2, 4, 6}
  }

  /** A byte of a type without a body is a whole message. */
  lemma ReadOneByte(d: Dictionary, stream: seq<byte>)
    requires stream != [] && stream[0] / 16 !in {0, 2, 4, 6}
    ensures ReadRequest(d, stream) == Reading(Bare(stream[0] / 16), stream[1..])
  {
    HeaderLayout(0, false, false);
  }

  /** A stream that ends before its first message does is a hang-up. */
  lemma ReadHangUp(d: Dictionary, stream: seq<byte>)
    requires stream != [] ==> stream[0] / 16 in {0, 2, 4, 6}
    requires |stream| < 9 || |stream| < 9 + NumberOf(stream[1..9])
    ensures ReadRequest(d, stream) == Reading(Closed, [])
  {
    HeaderLayout(0, false, false);
  }

  /** Any whole message: its fields are received as sent, and its payload is decoded when
      it is compressed, unless it is an echo that asks for a compressed answer. */
  lemma ReadAny(d: Dictionary, kind: nat, c: bool, r: bool, raw: seq<byte>, rest: seq<byte>)
    requires kind in {0, 2, 4, 6} && |raw| < Pow256(8)
    ensures ReadRequest(d, MessageBytes(HeaderByte(kind, c, r), raw) + rest) ==
            Reading(Full(kind, c, r, if c && raw != [] && !(kind == 0 && r) then Decompressed(d, raw) else raw), rest)
    ensures !c || (raw != [] && TotalBits(raw) <= INT_MAX) ==>
              Decodable(MessageBytes(HeaderByte(kind, c, r), raw) + rest)
  {
    hide MessageBytes, LengthField, HeaderByte, KindOf, ShiftedBit, Decompressed;
    HeaderRoundTrip(kind, c, r);
    MessageFields(HeaderByte(kind, c, r), raw, rest);
  }

  /** A compressed request is received as what it says, whatever its type. */
  lemma {:induction false} ReadCoded(d: Dictionary, kind: nat, r: bool, m: seq<byte>, rest: seq<byte>)
    requires WellFormed(d) && PrefixFree(d) && NonemptyCodes(d) && Proper(d, Coded(kind, r, m))
    ensures ReadRequest(d, SentBytes(d, Coded(kind, r, m)) + rest) == Reading(SentMeaning(d, Coded(kind, r, m)), rest)
  {
    hide ReadRequest, MessageBytes, HeaderByte, Decodable, Compressed, Decompressed, PrefixFree, NonemptyCodes;
    ReadAny(d, kind, true, r, Compressed(d, m), rest);
    RoundTrip(d, m);
    FrameNotEmpty(d, m);
  }

  lemma FrameNotEmpty(d: Dictionary, m: seq<byte>)
    requires |d| == 256
    ensures Compressed(d, m) != []
  {
    hide Encode;
    FrameLayout(Encode(d, m));
  }

  lemma {:induction false} ReadSent(d: Dictionary, s: Sent, rest: seq<byte>)
    requires WellFormed(d) && PrefixFree(d) && NonemptyCodes(d) && Proper(d, s)
    ensures s.Coded? ==> s.kind < 16
    ensures ReadRequest(d, SentBytes(d, s) + rest) == Reading(SentMeaning(d, s), rest)
  {
    hide ReadRequest, Printed, Meant, LengthIsRight, Fits, Decodable, Compressed, PrefixFree, NonemptyCodes;
    match s
    case FromProxy(c) => ReadPrinted(d, c, rest);
    case Coded(kind, r, m) => ReadCoded(d, kind, r, m, rest);
    case OneByte(header) => ReadOneByte(d, [header] + rest);
  }

  function SentAll(d: Dictionary, sent: seq<Sent>): (r: seq<byte>)
    requires |d| == 256 && forall s :: s in sent && s.Coded? ==> s.kind < 16
  {
    if sent == [] then [] else SentBytes(d, sent[0]) + SentAll(d, sent[1..])
  }

  /** The first n messages the server reads from a stream, and what is left. */
  function ReadMany(d: Dictionary, stream: seq<byte>, n: nat): (r: (seq<Received>, seq<byte>))
    decreases n
  {
    if n == 0 then ([], stream)
    else
      var first := ReadRequest(d, stream);
      var (more, rest) := ReadMany(d, first.rest, n - 1);
      ([first.message] + more, rest)
  }

  function MeantAll(d: Dictionary, sent: seq<Sent>): (r: seq<Received>)
    requires |d| == 256
  {
    if sent == [] then [] else [SentMeaning(d, sent[0])] + MeantAll(d, sent[1..])
  }

  lemma ProperKinds(d: Dictionary, sent: seq<Sent>)
    requires |d| == 256 && forall s :: s in sent ==> Proper(d, s)
    ensures forall s :: s in sent && s.Coded? ==> s.kind < 16
  {
  }

  /** Requests of any of these kinds sent back to back are received one by one as they
      were meant. */
  lemma {:induction false} ReadSentAll(d: Dictionary, sent: seq<Sent>, rest: seq<byte>)
    requires WellFormed(d) && PrefixFree(d) && NonemptyCodes(d)
    requires forall s :: s in sent ==> Proper(d, s)
    ensures forall s :: s in sent && s.Coded? ==> s.kind < 16
    ensures ReadMany(d, SentAll(d, sent) + rest, |sent|) == (MeantAll(d, sent), rest)
  {
    hide ReadRequest, SentBytes, SentMeaning, Proper, PrefixFree, NonemptyCodes;
    ProperKinds(d, sent);
    if sent == [] {
      assert SentAll(d, sent) + rest == rest;
    } else {
      var more := sent[1..];
      ReadSent(d, sent[0], SentAll(d, more) + rest);
      assert SentAll(d, sent) + rest == SentBytes(d, sent[0]) + (SentAll(d, more) + rest);
      ReadSentAll(d, more, rest);
    }
  }

  // ---------- the bytes of a command, and the service it reaches ----------

  /** Types 0, 4, 6 and 2 in the high bits of the first byte, and four for an answer
      that is to be compressed. */
  lemma PrintedHeader(c: Command)
    ensures Printed(c) != []
    ensures Printed(c)[0] ==
            match c
            case Echo(_, compress) => if compress then 0x04 else 0x00
            case FileSize(_, compress) => if compress then 0x44 else 0x40
            case Retrieve(_, compress) => if compress then 0x64 else 0x60
            case ListFiles => 0x20
  {
    hide Or, Shl, Utf8, JsLength, BytesOf;
    match c
    case Echo(_, compress) => HeaderLayout(0, false, compress);
    case FileSize(_, compress) => HeaderLayout(4, false, compress);
    case Retrieve(_, compress) => HeaderLayout(6, false, compress);
    case ListFiles => HeaderLayout(2, false, false);
  }

  ghost function Codes(s: string): (r: seq<int>) {
    seq(|s|, i requires 0 <= i < |s| => s[i] as int)
  }

  /** A retrieve request is for session 1 from the start of the file, with the length
      that the proxy knows for the file's name. */
  lemma RetrieveLayout(t: text, compress: bool)
    ensures var size := if t == Codes("simple.txt") then 13
                        else if t == Codes("sample.txt") then 26
                        else if t == Codes("test.txt") then 36
                        else if t == Codes("test.png") then 16
                        else 36;
            Printed(Retrieve(t, compress))[9..] ==
            [0, 0, 0, 1] + [0, 0, 0, 0, 0, 0, 0, 0] + [0, 0, 0, 0, 0, 0, 0, size] + Utf8(t)
  {
    hide Utf8, BytesOf, RetrievePayload, HeaderByte;
    var payload := RetrievePayload(1, 0, RequestSize(t), Utf8(t));
    assert Printed(Retrieve(t, compress))[9..] == payload;
    FileNames();
    RecordBytes(RequestSize(t), Utf8(t));
  }

  lemma RecordBytes(size: nat, name: seq<byte>)
    requires size < 256
    ensures RetrievePayload(1, 0, size, name) ==
            [0, 0, 0, 1] + [0, 0, 0, 0, 0, 0, 0, 0] + [0, 0, 0, 0, 0, 0, 0, size] + name
  {
    hide BytesOf;
    SmallNumber(1, 4);
    SmallNumber(0, 8);
    SmallNumber(size, 8);
    assert BytesOf(1, 4) == [0, 0, 0, 1];
    assert BytesOf(0, 8) == [0, 0, 0, 0, 0, 0, 0, 0];
    assert BytesOf(size, 8) == [0, 0, 0, 0, 0, 0, 0, size];
  }

  lemma FileNames()
    ensures SIMPLE_TXT == Codes("simple.txt") && SAMPLE_TXT == Codes("sample.txt")
    ensures TEST_TXT == Codes("test.txt") && TEST_PNG == Codes("test.png")
  {
  }

  lemma {:induction false} SmallNumber(v: nat, n: nat)
    requires v < 256 && n > 0
    ensures BytesOf(v, n) == seq(n - 1, _ => 0) + [v]
  {
    if n == 1 {
      assert BytesOf(v, 1) == [] + [v];
    } else {
      SmallNumber(0, n - 1);
      assert BytesOf(v, n) == BytesOf(0, n - 1) + [v];
    }
  }

  datatype Service = EchoBack | ListDirectory | SendSize | SendFile | ShutDown | Refuse

  /** The server's dispatch by type. */
  function ServiceOf(kind: nat): (r: Service) {
    if kind != 0 && kind != 2 && kind != 4 && kind != 6 && kind != 8 then Refuse
    else if kind == 0 then EchoBack
    else if kind == 2 then ListDirectory
    else if kind == 4 then SendSize
    else if kind == 6 then SendFile
    else ShutDown
  }

  function Wanted(c: Command): (r: Service) {
    match c
    case Echo(_, _) => EchoBack
    case FileSize(_, _) => SendSize
    case Retrieve(_, _) => SendFile
    case ListFiles => ListDirectory
  }

  /** Each command of the proxy reaches the service it is for, also when its text is
      cut off, and the byte 0x80 shuts the server down. */
  lemma CommandReaches(d: Dictionary, c: Command, rest: seq<byte>)
    requires Fits(c)
    ensures var m := ReadRequest(d, Printed(c)).message; m.Full? && ServiceOf(m.kind) == Wanted(c)
    ensures ReadRequest(d, [0x80] + rest) == Reading(Bare(8), rest) && ServiceOf(8) == ShutDown
  {
    hide ReadRequest, Printed, Utf8, JsLength, IsAscii, Decodable;
    ReadOneByte(d, [0x80] + rest);
    match c {
      case Echo(t, compress) => Truncated(d, c, 0, t, compress);
      case FileSize(t, compress) => Truncated(d, c, 4, t, compress);
      case _ =>
        ReadPrinted(d, c, []);
        assert Printed(c) + [] == Printed(c);
    }
  }

  // ---------- the file request record ----------

  datatype FileRequest = FileRequest(session: nat, offset: nat, length: nat, name: seq<byte>)

  /** The bytes before the first NUL. */
  function CString(bs: seq<byte>): (r: seq<byte>) {
    if bs == [] || bs[0] == 0 then [] else [bs[0]] + CString(bs[1..])
  }

  /** The payload holds a name that ends inside it. */
  predicate Terminated(payload: seq<byte>) {
    |payload| >= 20 && 0 in payload[20..]
  }

  function Dissected(payload: seq<byte>): (r: FileRequest)
    requires |payload| >= 20
  {
    FileRequest(NumberOf(payload[..4]), NumberOf(payload[4..12]), NumberOf(payload[12..20]), CString(payload[20..]))
  }

  /** memcpy of the three numbers and strcpy of the name, which reads on until a NUL. */
  method DissectFileRequest(input: Message) returns (req: FileRequest)
    requires input.Valid() && Terminated(input.buffer)
    ensures req == Dissected(input.buffer)
  {
    hide NumberOf, CString;
    var session := NumberOf(input.buffer[..4]);
    var offset := NumberOf(input.buffer[4..12]);
    var length := NumberOf(input.buffer[12..20]);
    var name := CopyString(input.buffer[20..]);
    req := FileRequest(session, offset, length, name);
  }

  method CopyString(bs: seq<byte>) returns (name: seq<byte>)
    requires 0 in bs
    ensures name == CString(bs)
  {
    name := [];
    var i := 0;
    while bs[i] != 0
      invariant 0 <= i < |bs| && 0 in bs[i..]
      invariant CString(bs) == name + CString(bs[i..])
      decreases |bs| - i
    {
      CStringStep(bs[i..]);
      assert bs[i..][1..] == bs[i + 1..];
      name := name + [bs[i]];
      i := i + 1;
    }
    CStringStep(bs[i..]);
  }

  lemma CStringStep(bs: seq<byte>)
    requires bs != []
    ensures CString(bs) == if bs[0] == 0 then [] else [bs[0]] + CString(bs[1..])
    ensures 0 in bs && bs[0] != 0 ==> 0 in bs[1..]
  {
  }

  lemma {:induction false} CStringOf(name: seq<byte>, more: seq<byte>)
    requires 0 !in name
    ensures CString(name + [0] + more) == name
  {
    if name == [] {
    } else {
      CStringOf(name[1..], more);
      assert (name + [0] + more)[1..] == name[1..] + [0] + more;
      assert 0 !in name[1..];
    }
  }

  /** A NUL-terminated retrieve payload gives back the four fields. */
  lemma DissectPrinted(session: nat, offset: nat, length: nat, name: seq<byte>, more: seq<byte>)
    requires session < Pow256(4) && offset < Pow256(8) && length < Pow256(8) && 0 !in name
    ensures var p := RetrievePayload(session, offset, length, name + [0] + more);
            Terminated(p) && Dissected(p) == FileRequest(session, offset, length, name)
  {
    hide NumberOf, BytesOf, Pow256, CString;
    var tail := name + [0] + more;
    var p := RetrievePayload(session, offset, length, tail);
    assert p[..4] == BytesOf(session, 4) && p[4..12] == BytesOf(offset, 8) && p[12..20] == BytesOf(length, 8);
    assert p[20..] == tail && tail[|name|] == 0;
    NumberRoundTrip(session, 4);
    NumberRoundTrip(offset, 8);
    NumberRoundTrip(length, 8);
    CStringOf(name, more);
  }

  /** A record that is printed again, its name terminated, begins the payload that it
      was read from. */
  lemma PrintDissected(payload: seq<byte>)
    requires Terminated(payload)
    ensures var r := Dissected(payload);
            RetrievePayload(r.session, r.offset, r.length, r.name + [0]) <= payload
  {
    hide NumberOf, BytesOf, CString;
    var r := Dissected(payload);
    BytesRoundTrip(payload[..4]);
    BytesRoundTrip(payload[4..12]);
    BytesRoundTrip(payload[12..20]);
    CStringBegins(payload[20..]);
    var n := |r.name| + 1;
    assert payload[20..][..n] == r.name + [0];
    assert payload[..20 + n] == payload[..4] + payload[4..12] + payload[12..20] + payload[20..][..n];
  }

  lemma {:induction false} CStringBegins(bs: seq<byte>)
    requires 0 in bs
    ensures CString(bs) + [0] <= bs
  {
    CStringStep(bs);
    if bs[0] != 0 {
      CStringBegins(bs[1..]);
      assert bs == [bs[0]] + bs[1..];
    }
  }

  /** In UTF-8 only U+0000 has a zero byte. */
  lemma {:induction false} Utf8Nul(t: text)
    ensures 0 in Utf8(t) <==> 0 in t
  {
    if t != [] {
      var init, last := t[..|t| - 1], t[|t| - 1];
      Utf8Nul(init);
      assert t == init + [last];
      assert 0 in Utf8Scalar(last) <==> last == 0;
    }
  }

  /** The proxy sends the name without a terminator, so its retrieve payload is a
      proper record only when the name itself contains a NUL. */
  lemma {:induction false} ProxyNameTerminatedIff(t: text)
    ensures Terminated(RetrievePayload(1, 0, RequestSize(t), Utf8(t))) <==> 0 in t
  {
    hide BytesOf, Utf8, RequestSize;
    Utf8Nul(t);
    var p := RetrievePayload(1, 0, RequestSize(t), Utf8(t));
    assert p[20..] == Utf8(t);
  }

  /** The name "a" runs on past the end of its payload. */
  lemma NameRunsOn()
    ensures !Terminated(RetrievePayload(1, 0, RequestSize([0x61]), Utf8([0x61])))
  {
    ProxyNameTerminatedIff([0x61]);
  }
}
