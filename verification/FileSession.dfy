/** message_handling.c: one file range served over several connections. The first
    connection of a session splits the range and passes (offset, length) records
    through a pipe; every other connection takes one. */
module FileSession {
  import opened Bits
  import opened Wrappers
  import opened Wire
  import opened PrefixCode
  import opened Compression
  import opened JsDecompressor
  import opened Messages
  import opened Sockets
  import opened Requests
  import opened Responses
  import Reassembly

  const TWO_64: int := 0x1_0000_0000_0000_0000

  datatype Segment = Segment(offset: nat, length: nat)

  // ---------- the range check ----------

  /** The check on the requested range, in 64-bit unsigned arithmetic. */
  predicate Accepted(offset: nat, length: nat, size: nat) {
    !(offset > size || (offset + length) % TWO_64 > size)
  }

  /** An accepted range lies inside the file exactly when its end does not wrap. */
  lemma AcceptedInsideIff(offset: nat, length: nat, size: nat)
    requires offset < TWO_64 && length < TWO_64 && size < TWO_64
    ensures offset + length <= size <==> Accepted(offset, length, size) && offset + length < TWO_64
  {
  }

  /** What is accepted: a start inside the file, and an end inside it, as it is or after
      wrapping. */
  lemma AcceptedIff(offset: nat, length: nat, size: nat)
    requires offset < TWO_64 && length < TWO_64 && size < TWO_64
    ensures Accepted(offset, length, size) <==>
            && offset <= size
            && (offset + length <= size || TWO_64 <= offset + length <= TWO_64 + size)
  {
    var end := offset + length;
    if end >= TWO_64 {
      assert end % TWO_64 == end - TWO_64;
    }
  }

  /** A range that wraps and is accepted all the same. */
  lemma WrappedRangeAccepted()
    ensures Accepted(1, TWO_64 - 1, 1) && 1 + (TWO_64 - 1) > 1
  {
  }

  // ---------- the split ----------

  /** Consecutive segments of the given lengths. */
  function Tiles(offset: nat, lengths: seq<nat>): (r: seq<Segment>) {
    if lengths == [] then []
    else
      var init := lengths[..|lengths| - 1];
      Tiles(offset, init) + [Segment(offset + Sum(init), lengths[|lengths| - 1])]
  }

  function Sum(lengths: seq<nat>): (r: nat) {
    if lengths == [] then 0 else Sum(lengths[..|lengths| - 1]) + lengths[|lengths| - 1]
  }

  /** The first k lengths: `extra` of them one longer than `division`. */
  function Lengths(division: nat, extra: nat, k: nat): (r: seq<nat>)
    ensures |r| == k
  {
    seq(k, i => if i < extra then division + 1 else division)
  }

  /** The segments for n children and, last, for the parent. */
  function Segments(offset: nat, length: nat, n: nat): (r: seq<Segment>)
    ensures |r| == n + 1
  {
    TilesLength(offset, Lengths(length / (n + 1), length % (n + 1), n + 1));
    Tiles(offset, Lengths(length / (n + 1), length % (n + 1), n + 1))
  }

  lemma {:induction false} TilesLength(offset: nat, lengths: seq<nat>)
    ensures |Tiles(offset, lengths)| == |lengths|
  {
    if lengths != [] {
      TilesLength(offset, lengths[..|lengths| - 1]);
    }
  }

  lemma {:induction false} SumOfLengths(division: nat, extra: nat, k: nat)
    ensures Sum(Lengths(division, extra, k)) == k * division + if k < extra then k else extra
  {
    if k > 0 {
      SumOfLengths(division, extra, k - 1);
      assert Lengths(division, extra, k)[..k - 1] == Lengths(division, extra, k - 1);
      assert k * division == (k - 1) * division + division;
    }
  }

  lemma SegmentsSum(length: nat, n: nat)
    ensures Sum(Lengths(length / (n + 1), length % (n + 1), n + 1)) == length
  {
    SumOfLengths(length / (n + 1), length % (n + 1), n + 1);
    assert length == (n + 1) * (length / (n + 1)) + length % (n + 1);
  }

  /** Each segment in closed form: the first length % (n + 1) of them are one longer. */
  lemma {:induction false} SegmentAt(offset: nat, length: nat, n: nat, k: nat)
    requires k <= n
    ensures var q, e := length / (n + 1), length % (n + 1);
            Segments(offset, length, n)[k] ==
            Segment(offset + k * q + (if k < e then k else e), if k < e then q + 1 else q)
  {
    hide Sum;
    var q, e := length / (n + 1), length % (n + 1);
    TileAt(offset, Lengths(q, e, n + 1), k);
    assert Lengths(q, e, n + 1)[..k] == Lengths(q, e, k);
    SumOfLengths(q, e, k);
  }

  lemma {:induction false} TileAt(offset: nat, lengths: seq<nat>, k: nat)
    requires k < |lengths|
    ensures |Tiles(offset, lengths)| == |lengths|
    ensures Tiles(offset, lengths)[k] == Segment(offset + Sum(lengths[..k]), lengths[k])
  {
    TilesLength(offset, lengths);
    var init := lengths[..|lengths| - 1];
    TilesLength(offset, init);
    if k < |init| {
      TileAt(offset, init, k);
      assert init[..k] == lengths[..k];
    }
  }

  // ---------- the count read again and again ----------

  /** The values that the parent reads from num_connect while it splits a range, which
      may all differ because children join meanwhile: to compute the division, to see
      whether there are children, on each turn of the first loop, and the two to set
      up the second loop. */
  datatype Readings = Readings(divide: nat, any: nat, turn: nat -> nat, count: nat, modulus: nat)

  /** What the division by the children and the parent leaves over. */
  function Extra(length: nat, count: nat): (r: nat)
    ensures r <= length
  {
    length % (count + 1)
  }

  /** The turns of the first loop from turn i on: it ends at the first turn that reads
      a count with too small a remainder. */
  function Longs(length: nat, turn: nat -> nat, i: nat): (k: nat)
    ensures k >= i
    decreases length - i
  {
    if i < Extra(length, turn(i)) then Longs(length, turn, i + 1) else i
  }

  lemma {:induction false} LongsFirst(length: nat, turn: nat -> nat, i: nat)
    ensures var k := Longs(length, turn, i);
            k >= Extra(length, turn(k)) && forall j :: i <= j < k ==> j < Extra(length, turn(j))
    decreases length - i
  {
    hide Extra;
    if i < Extra(length, turn(i)) {
      LongsFirst(length, turn, i + 1);
    }
  }

  /** That is the first turn at which the condition fails. */
  lemma LongsIsFirst(length: nat, turn: nat -> nat, j: nat)
    ensures var k := Longs(length, turn, 0);
            k >= length % (turn(k) + 1) && (j < k ==> j < length % (turn(j) + 1))
  {
    hide Longs;
    LongsFirst(length, turn, 0);
  }

  /** The turns of the second loop. */
  function Shorts(length: nat, count: nat, modulus: nat): (r: nat) {
    var extra := Extra(length, modulus);
    if count > extra then count - extra else 0
  }

  /** How many longer records are written. */
  function LongPieces(length: nat, r: Readings): (result: nat) {
    if r.any == 0 then 0 else Longs(length, r.turn, 0)
  }

  /** The lengths handed out, the parent's own last. */
  function Pieces(length: nat, r: Readings): (p: seq<nat>)
    ensures |p| > 0
  {
    var k := LongPieces(length, r);
    Lengths(length / (r.divide + 1), k, k + (if r.any == 0 then 0 else Shorts(length, r.count, r.modulus)) + 1)
  }

  /** The pieces one by one: without children the parent has the division; otherwise
      there are k longer pieces, then as many as the second loop's two readings ask
      for, and the parent's, of exactly the division. */
  lemma PiecesAre(length: nat, r: Readings, i: nat)
    requires i < |Pieces(length, r)|
    ensures var q, k, extra := length / (r.divide + 1), Longs(length, r.turn, 0), length % (r.modulus + 1);
            && |Pieces(length, r)| ==
               (if r.any == 0 then 1 else if r.count > extra then k + (r.count - extra) + 1 else k + 1)
            && Pieces(length, r)[i] == if r.any > 0 && i < k then q + 1 else q
  {
  }

  /** Whatever is read at each place, the pieces add up to the range exactly when the
      division is that by the number of pieces handed out, and as many of them are
      longer as that division leaves over. */
  lemma ReadingsMustAgree(length: nat, r: Readings)
    ensures var n := |Pieces(length, r)|;
            Sum(Pieces(length, r)) == length <==>
            length / (r.divide + 1) == length / n && LongPieces(length, r) == length % n
  {
    hide Sum, Lengths, LongPieces, Shorts;
    var n, q, k := |Pieces(length, r)|, length / (r.divide + 1), LongPieces(length, r);
    SumOfLengths(q, k, n);
    SameDivision(length, n, q, k);
  }

  lemma SameDivision(length: nat, n: nat, q: nat, k: nat)
    requires k < n
    ensures n * q + k == length <==> q == length / n && k == length % n
  {
    if n * q + k == length {
      Quotient(length, n, q, k);
    }
    assert length == n * (length / n) + length % n;
  }

  /** All readings alike. */
  function Steady(n: nat): (r: Readings) {
    Readings(n, n, _ => n, n, n)
  }

  lemma {:induction false} SteadyLongs(length: nat, turn: nat -> nat, n: nat, i: nat)
    requires (forall j :: turn(j) == n) && i <= length % (n + 1)
    ensures Longs(length, turn, i) == length % (n + 1)
    decreases length - i
  {
    if i < length % (n + 1) {
      SteadyLongs(length, turn, n, i + 1);
    }
  }

  /** With one value throughout, the pieces are the segments. */
  lemma SteadyPieces(length: nat, n: nat)
    ensures Pieces(length, Steady(n)) == Lengths(length / (n + 1), length % (n + 1), n + 1)
    ensures Sum(Pieces(length, Steady(n))) == length
  {
    SteadyLongs(length, Steady(n).turn, n, 0);
    SegmentsSum(length, n);
  }

  /** If children join only between the division and the first loop, the pieces add up
      exactly when both counts give the same division. */
  lemma JoinedBeforeLoops(length: nat, first: nat, second: nat)
    ensures Sum(Pieces(length, Steady(second).(divide := first))) == length <==>
            length / (first + 1) == length / (second + 1)
  {
    SteadyLongs(length, Steady(second).turn, second, 0);
    ReadingsMustAgree(length, Steady(second).(divide := first));
  }

  /** Two children that join between the loops: eight bytes are handed out of four. */
  lemma JoinedBetweenLoops()
    ensures Sum(Pieces(4, Steady(1).(count := 3, modulus := 3))) == 8
  {
    SteadyLongs(4, Steady(1).turn, 1, 0);
    SumOfLengths(2, 0, 4);
  }

  // ---------- the segments cover the range ----------

  predicate Covers(s: Segment, x: nat) {
    s.offset <= x < s.offset + s.length
  }

  ghost predicate CoveredBy(segments: seq<Segment>, x: nat) {
    exists s :: s in segments && Covers(s, x)
  }

  lemma CoveredByOneMore(segments: seq<Segment>, last: Segment, x: nat)
    ensures CoveredBy(segments + [last], x) <==> CoveredBy(segments, x) || Covers(last, x)
  {
    var all := segments + [last];
    if s :| s in segments && Covers(s, x) {
      assert s in all;
    }
    assert all[|segments|] == last;
  }

  /** Every position of the range lies in a segment, and no other position does. */
  lemma {:induction false} TilesCover(offset: nat, lengths: seq<nat>, x: nat)
    ensures CoveredBy(Tiles(offset, lengths), x) <==> offset <= x < offset + Sum(lengths)
  {
    if lengths != [] {
      var init := lengths[..|lengths| - 1];
      TilesCover(offset, init, x);
      CoveredByOneMore(Tiles(offset, init), Segment(offset + Sum(init), lengths[|lengths| - 1]), x);
    }
  }

  /** No two segments overlap. */
  lemma {:induction false} TilesDisjoint(offset: nat, lengths: seq<nat>, i: nat, j: nat)
    requires i < j < |Tiles(offset, lengths)|
    ensures var t := Tiles(offset, lengths); t[i].offset + t[i].length <= t[j].offset
  {
    TilesLength(offset, lengths);
    var init := lengths[..|lengths| - 1];
    TilesLength(offset, init);
    if j < |init| {
      TilesDisjoint(offset, init, i, j);
    } else {
      TileEnds(offset, init, i);
    }
  }

  lemma {:induction false} TileEnds(offset: nat, lengths: seq<nat>, i: nat)
    requires i < |Tiles(offset, lengths)|
    ensures var t := Tiles(offset, lengths); offset <= t[i].offset && t[i].offset + t[i].length <= offset + Sum(lengths)
  {
    TilesLength(offset, lengths);
    var init := lengths[..|lengths| - 1];
    TilesLength(offset, init);
    if i < |init| {
      TileEnds(offset, init, i);
    }
  }

  // ---------- one reply ----------

  /** The message a sender writes for its segment. */
  function SegmentPayload(session: nat, file: seq<byte>, s: Segment): (r: seq<byte>)
    requires s.offset + s.length <= |file|
  {
    RetrievePayload(session, s.offset, s.length, file[s.offset..s.offset + s.length])
  }

  function SegmentReply(d: Dictionary, compressed: bool, session: nat, file: seq<byte>, s: Segment): (r: seq<byte>)
    requires |d| == 256 && s.offset + s.length <= |file|
  {
    if compressed then MessageBytes(0x78, Compressed(d, SegmentPayload(session, file, s)))
    else MessageBytes(0x70, SegmentPayload(session, file, s))
  }

  /** A reply as the receiver understands it. */
  datatype Piece = Piece(session: nat, offset: nat, length: nat, content: seq<byte>)

  /** Nothing unless it is a file reply; otherwise the record and the content after it
      in the payload, decoded by the reply's own compression bit. */
  function Understood(d: Dictionary, reply: seq<byte>): (r: Option<Piece>) {
    if |reply| < 9 || reply[0] / 16 != 7 then None
    else
      var payload := Decoded(Some(d), reply);
      if |payload| < 20 then None
      else Some(Piece(NumberOf(payload[..4]), NumberOf(payload[4..12]), NumberOf(payload[12..20]), payload[20..]))
  }

  /** Every reply is understood as the segment it was made for. */
  lemma {:induction false} ReplyUnderstood(d: Dictionary, compressed: bool, session: nat, file: seq<byte>, s: Segment)
    requires WellFormed(d) && PrefixFree(d) && NonemptyCodes(d)
    requires session < Pow256(4) && |file| < Pow256(8) && s.offset + s.length <= |file|
    ensures Understood(d, SegmentReply(d, compressed, session, file, s)) ==
            Some(Piece(session, s.offset, s.length, file[s.offset..s.offset + s.length]))
  {
    hide NumberOf, BytesOf, Pow256, Compressed, JsDecompressed, ShiftedBit, PrefixFree, NonemptyCodes;
    var p := SegmentPayload(session, file, s);
    FileReplyHeaders();
    InvertsCompress(d, p);
    var payload := if compressed then Compressed(d, p) else p;
    assert SegmentReply(d, compressed, session, file, s)[9..] == payload;
    assert p[..4] == BytesOf(session, 4) && p[4..12] == BytesOf(s.offset, 8) && p[12..20] == BytesOf(s.length, 8);
    assert p[20..] == file[s.offset..s.offset + s.length];
    NumberRoundTrip(session, 4);
    NumberRoundTrip(s.offset, 8);
    NumberRoundTrip(s.length, 8);
  }

  /** A reply is one whole message of type 7 whose compression bit says what was asked
      for, and the proxy shows the segment's bytes for it. */
  lemma ReplyShown(d: Dictionary, compressed: bool, session: nat, file: seq<byte>, s: Segment)
    requires WellFormed(d) && PrefixFree(d) && NonemptyCodes(d)
    requires s.offset + s.length <= |file| && 20 + s.length < Pow256(8)
    requires compressed ==> |Compressed(d, SegmentPayload(session, file, s))| < Pow256(8)
    ensures var reply := SegmentReply(d, compressed, session, file, s);
            && Reassembly.IsMessage(reply)
            && KindOf(reply[0]) == reply[0] / 16 == 7 && ShiftedBit(reply[0], 3) == compressed
            && reply[0] == (if compressed then 0x78 else 0x70)
            && Handled(Some(d), reply) == Content(file[s.offset..s.offset + s.length])
  {
    hide NumberOf, BytesOf, Pow256, Compressed, JsDecompressed, ShiftedBit, PrefixFree, NonemptyCodes, KindOf;
    var p := SegmentPayload(session, file, s);
    FileReplyHeaders();
    InvertsCompress(d, p);
    var header, payload: seq<byte> := if compressed then 0x78 else 0x70, if compressed then Compressed(d, p) else p;
    var reply := SegmentReply(d, compressed, session, file, s);
    MessageFields(header, payload, []);
    assert MessageBytes(header, payload) + [] == reply;
    assert reply[9..] == payload;
    assert p[20..] == file[s.offset..s.offset + s.length];
  }

  lemma FileReplyHeaders()
    ensures ShiftedBit(0x78, 3) && !ShiftedBit(0x70, 3)
    ensures KindOf(0x78) == KindOf(0x70) == 7
  {
    HeaderValue(7, true, false);
    HeaderRoundTrip(7, true, false);
    HeaderValue(7, false, false);
    HeaderRoundTrip(7, false, false);
  }

  // ---------- putting the pieces together ----------

  /** The bytes a..b of a file, by position. */
  function FileMap(file: seq<byte>, a: nat, b: nat): (r: map<nat, byte>)
    requires a <= b <= |file|
  {
    map x: nat | a <= x < b :: file[x]
  }

  function ByteAt(content: seq<byte>, offset: nat, x: nat): (r: byte)
    requires offset <= x < offset + |content|
  {
    content[x - offset]
  }

  /** Writes content at its stated offset. */
  function Place(m: map<nat, byte>, offset: nat, content: seq<byte>): (r: map<nat, byte>) {
    m + map x: nat | offset <= x < offset + |content| :: ByteAt(content, offset, x)
  }

  /** Places the replies in the order in which they come in. */
  function PlaceAll(d: Dictionary, replies: seq<seq<byte>>): (r: map<nat, byte>) {
    if replies == [] then map[]
    else
      var before := PlaceAll(d, replies[..|replies| - 1]);
      match Understood(d, replies[|replies| - 1])
      case None => before
      case Some(piece) => Place(before, piece.offset, piece.content)
  }

  /** A sender and whether its client asked for compression. */
  datatype Sender = Sender(segment: Segment, compressed: bool)

  ghost predicate InFile(file: seq<byte>, senders: seq<Sender>) {
    forall i :: 0 <= i < |senders| ==> senders[i].segment.offset + senders[i].segment.length <= |file|
  }

  function Replies(d: Dictionary, session: nat, file: seq<byte>, senders: seq<Sender>): (r: seq<seq<byte>>)
    requires |d| == 256 && InFile(file, senders)
    ensures |r| == |senders|
  {
    seq(|senders|, i requires 0 <= i < |senders| && InFile(file, senders) =>
      SegmentReply(d, senders[i].compressed, session, file, senders[i].segment))
  }

  function SegmentsOf(senders: seq<Sender>): (r: seq<Segment>)
    ensures |r| == |senders|
  {
    seq(|senders|, i requires 0 <= i < |senders| => senders[i].segment)
  }

  lemma PlacePositions(m: map<nat, byte>, s: Segment, content: seq<byte>, x: nat)
    requires |content| == s.length
    ensures x in Place(m, s.offset, content) <==> x in m || Covers(s, x)
  {
  }

  /** One more reply in. */
  lemma {:induction false} PlaceAllNext(d: Dictionary, session: nat, file: seq<byte>, init: seq<Sender>, last: Sender)
    requires WellFormed(d) && PrefixFree(d) && NonemptyCodes(d)
    requires session < Pow256(4) && |file| < Pow256(8) && InFile(file, init)
    requires last.segment.offset + last.segment.length <= |file|
    ensures InFile(file, init + [last])
    ensures var s := last.segment;
            PlaceAll(d, Replies(d, session, file, init + [last])) ==
            Place(PlaceAll(d, Replies(d, session, file, init)), s.offset, file[s.offset..s.offset + s.length])
  {
    hide Understood, SegmentReply, PrefixFree, NonemptyCodes, Pow256, Place;
    assert (init + [last])[|init|] == last;
    ReplyUnderstood(d, last.compressed, session, file, last.segment);
    assert Replies(d, session, file, init + [last])[..|init|] == Replies(d, session, file, init);
  }

  /** After any replies in any order, exactly the covered positions are filled, each
      with the file's byte. */
  lemma {:induction false} PlacedPositions(d: Dictionary, session: nat, file: seq<byte>, senders: seq<Sender>)
    requires WellFormed(d) && PrefixFree(d) && NonemptyCodes(d)
    requires session < Pow256(4) && |file| < Pow256(8) && InFile(file, senders)
    ensures var m := PlaceAll(d, Replies(d, session, file, senders));
            && (forall x: nat :: x in m <==> CoveredBy(SegmentsOf(senders), x))
            && (forall x: nat :: x in m ==> x < |file| && m[x] == file[x])
  {
    hide PrefixFree, NonemptyCodes, Pow256, Replies, CoveredBy;
    if senders == [] {
      NothingCovered(SegmentsOf(senders));
    } else {
      var init, last := senders[..|senders| - 1], senders[|senders| - 1];
      var seg := last.segment;
      var content := file[seg.offset..seg.offset + seg.length];
      assert senders == init + [last] && SegmentsOf(senders) == SegmentsOf(init) + [seg];
      PlacedPositions(d, session, file, init);
      PlaceAllNext(d, session, file, init, last);
      var before := PlaceAll(d, Replies(d, session, file, init));
      forall x: nat ensures x in Place(before, seg.offset, content) <==> CoveredBy(SegmentsOf(senders), x) {
        CoveredByOneMore(SegmentsOf(init), seg, x);
        PlacePositions(before, seg, content, x);
      }
    }
  }

  lemma NothingCovered(segments: seq<Segment>)
    requires segments == []
    ensures forall x: nat :: !CoveredBy(segments, x)
  {
  }

  /** Whichever sender's reply comes first, placing all replies of a session rebuilds
      exactly the requested range. */
  lemma {:induction false} AnyOrderRebuilds(
    d: Dictionary, session: nat, file: seq<byte>, offset: nat, length: nat, n: nat, senders: seq<Sender>)
    requires WellFormed(d) && PrefixFree(d) && NonemptyCodes(d)
    requires session < Pow256(4) && |file| < Pow256(8) && offset + length <= |file|
    requires multiset(SegmentsOf(senders)) == multiset(Segments(offset, length, n))
    ensures InFile(file, senders)
    ensures PlaceAll(d, Replies(d, session, file, senders)) == FileMap(file, offset, offset + length)
  {
    hide PlaceAll, Replies, PrefixFree, NonemptyCodes, Pow256, Tiles, Sum, CoveredBy;
    var lengths := Lengths(length / (n + 1), length % (n + 1), n + 1);
    SegmentsSum(length, n);
    forall s ensures s in SegmentsOf(senders) <==> s in Segments(offset, length, n) {
      assert s in multiset(SegmentsOf(senders)) <==> s in multiset(Segments(offset, length, n));
    }
    forall i | 0 <= i < |senders| ensures senders[i].segment.offset + senders[i].segment.length <= |file| {
      assert SegmentsOf(senders)[i] in Segments(offset, length, n);
      var k :| 0 <= k < n + 1 && Segments(offset, length, n)[k] == senders[i].segment;
      TileEnds(offset, lengths, k);
    }
    PlacedPositions(d, session, file, senders);
    var m := PlaceAll(d, Replies(d, session, file, senders));
    forall x: nat ensures x in m <==> offset <= x < offset + length {
      SameCoverage(SegmentsOf(senders), Segments(offset, length, n), x);
      TilesCover(offset, lengths, x);
    }
  }

  lemma SameCoverage(a: seq<Segment>, b: seq<Segment>, x: nat)
    requires forall s :: s in a <==> s in b
    ensures CoveredBy(a, x) <==> CoveredBy(b, x)
  {
  }

  // ---------- the senders ----------

  /** The shared record of a session: its range and file, how many further connections
      have joined, the pipe, a queue of whole records, and the link to the next session. */
  class Request {
    const session: nat
    const offset: nat
    const length: nat
    const name: seq<byte>
    var numConnect: nat
    var pipe: seq<Segment>
    var next: Request?

    constructor (session: nat, offset: nat, length: nat, name: seq<byte>)
      ensures this.session == session && this.offset == offset && this.length == length && this.name == name
      ensures numConnect == 0 && pipe == [] && next == null
    {
      this.session, this.offset, this.length, this.name := session, offset, length, name;
      numConnect, pipe, next := 0, [], null;
    }
  }

  /** error_send */
  function ErrorReply(): (r: seq<byte>) {
    [0xF0] + BytesOf(0, 8)
  }

  /** Type 15 and a zero length, for which the proxy shows an error. */
  lemma ErrorReplyShown(dictionary: Option<Dictionary>)
    ensures ErrorReply() == [0xF0, 0, 0, 0, 0, 0, 0, 0, 0] && Reassembly.IsMessage(ErrorReply())
    ensures Handled(dictionary, ErrorReply()) == ServerError
  {
    hide Decoded;
    HeaderLayout(15, false, false);
    ZeroBytes();
    MessageFields(0xF0, [], []);
    assert MessageBytes(0xF0, []) + [] == ErrorReply();
  }

  lemma ZeroBytes()
    ensures BytesOf(0, 8) == [0, 0, 0, 0, 0, 0, 0, 0]
  {
    forall i | 0 <= i < 8 ensures BytesOf(0, 8)[i] == 0 {
      BigEndian(0, 8, i);
    }
  }

  lemma TilesNext(offset: nat, division: nat, extra: nat, k: nat)
    ensures var s := Segment(offset + Sum(Lengths(division, extra, k)), if k < extra then division + 1 else division);
            && Tiles(offset, Lengths(division, extra, k + 1)) == Tiles(offset, Lengths(division, extra, k)) + [s]
            && Sum(Lengths(division, extra, k + 1)) == Sum(Lengths(division, extra, k)) + s.length
  {
    assert Lengths(division, extra, k + 1)[..k] == Lengths(division, extra, k);
  }

  /** Only whether a position is below `extra` matters. */
  lemma AllLonger(division: nat, extra: nat, k: nat)
    requires k <= extra
    ensures Lengths(division, extra, k) == Lengths(division, k, k)
  {
  }

  lemma NoTiles(offset: nat, division: nat)
    ensures Tiles(offset, Lengths(division, 0, 0)) == [] && Sum(Lengths(division, 0, 0)) == 0
  {
  }

  /** The first loop: longer records for as long as the count read asks for more. */
  method WriteLonger(req: Request, division: nat, turn: nat -> nat) returns (i: nat, currentOffset: nat)
    modifies req`pipe
    ensures i == Longs(req.length, turn, 0)
    ensures req.pipe == old(req.pipe) + Tiles(req.offset, Lengths(division, i, i))
    ensures currentOffset == req.offset + Sum(Lengths(division, i, i))
  {
    hide Tiles, Sum, Lengths, Extra;
    i, currentOffset := 0, req.offset;
    NoTiles(req.offset, division);
    while i < Extra(req.length, turn(i))
      invariant req.pipe == old(req.pipe) + Tiles(req.offset, Lengths(division, i, i))
      invariant currentOffset == req.offset + Sum(Lengths(division, i, i))
      invariant Longs(req.length, turn, i) == Longs(req.length, turn, 0)
      decreases req.length - i
    {
      TilesNext(req.offset, division, i + 1, i);
      AllLonger(division, i + 1, i);
      req.pipe := req.pipe + [Segment(currentOffset, division + 1)];
      currentOffset := currentOffset + (division + 1);
      i := i + 1;
    }
  }

  /** The second loop, after the longer records. */
  method WriteRest(
    req: Request, division: nat, remaining: int, offset0: nat, ghost start: seq<Segment>, ghost longs: nat)
    returns (currentOffset: nat)
    requires req.pipe == start + Tiles(req.offset, Lengths(division, longs, longs))
    requires offset0 == req.offset + Sum(Lengths(division, longs, longs))
    modifies req`pipe
    ensures var k := longs + if remaining > 0 then remaining else 0;
            && req.pipe == start + Tiles(req.offset, Lengths(division, longs, k))
            && currentOffset == req.offset + Sum(Lengths(division, longs, k))
  {
    hide Tiles, Sum, Lengths;
    currentOffset := offset0;
    var i := 0;
    while i < remaining
      invariant 0 <= i && (i <= remaining || i == 0)
      invariant req.pipe == start + Tiles(req.offset, Lengths(division, longs, longs + i))
      invariant currentOffset == req.offset + Sum(Lengths(division, longs, longs + i))
    {
      TilesNext(req.offset, division, longs, longs + i);
      req.pipe := req.pipe + [Segment(currentOffset, division)];
      currentOffset := currentOffset + division;
      i := i + 1;
    }
  }

  /** Writes the children's records and returns the parent's own segment; r holds what
      is read from num_connect on the way. */
  method SplitRange(req: Request, r: Readings) returns (own: Segment)
    modifies req`pipe
    ensures req.pipe + [own] == old(req.pipe) + Tiles(req.offset, Pieces(req.length, r))
    ensures own.length == req.length / (r.divide + 1)
  {
    hide Tiles, Sum, Lengths, Shorts, Extra, Longs;
    var division := req.length / (r.divide + 1);
    var currentOffset := req.offset;
    ghost var longs, k := 0, 0;
    NoTiles(req.offset, division);
    if r.any > 0 {
      var i;
      i, currentOffset := WriteLonger(req, division, r.turn);
      var remaining := r.count - Extra(req.length, r.modulus);
      ShortsIs(req.length, r.count, r.modulus);
      currentOffset := WriteRest(req, division, remaining, currentOffset, old(req.pipe), i);
      longs, k := i, i + Shorts(req.length, r.count, r.modulus);
    }
    TilesNext(req.offset, division, longs, k);
    own := Segment(currentOffset, division);
  }

  lemma ShortsIs(length: nat, count: nat, modulus: nat)
    ensures var n := count - Extra(length, modulus); Shorts(length, count, modulus) == if n > 0 then n else 0
  {
  }

  /** Sends one segment, compressed when the client asked for it. */
  method SendSegment(sock: Socket, compressed: bool, session: nat, file: seq<byte>, s: Segment, dict: Dictionary)
    requires WellFormed(dict) && s.offset + s.length <= |file|
    requires compressed ==> var p := SegmentPayload(session, file, s); |p| <= INT_MAX && |Encode(dict, p)| <= INT_MAX
    modifies sock`sent
    ensures sock.sent == old(sock.sent) + SegmentReply(dict, compressed, session, file, s)
  {
    hide Encode, Compressed, BytesOf;
    var buffer := RetrievePayload(session, s.offset, s.length, file[s.offset..s.offset + s.length]);
    var n;
    if compressed {
      var msg := new Message(0, false, false, buffer);
      Compress(msg, dict);
      n := SendAll(sock, [0x78] + BytesOf(msg.length, 8) + msg.buffer);
    } else {
      n := SendAll(sock, [0x70] + BytesOf(20 + s.length, 8) + buffer);
    }
  }

  /** The segment's message fits the encoder's int counters. */
  ghost predicate Compressible(d: Dictionary, session: nat, file: seq<byte>, s: Segment)
    requires |d| == 256
  {
    s.offset + s.length <= |file| ==>
      var p := SegmentPayload(session, file, s); |p| <= INT_MAX && |Encode(d, p)| <= INT_MAX
  }

  ghost function OwnSegment(req: Request): (r: Segment)
    reads req
  {
    Segments(req.offset, req.length, req.numConnect)[req.numConnect]
  }

  lemma LastApart(pipe: seq<Segment>, own: Segment, before: seq<Segment>, segments: seq<Segment>)
    requires segments != [] && pipe + [own] == before + segments
    ensures var n := |segments| - 1; pipe == before + segments[..n] && own == segments[n]
  {
    var n := |segments| - 1;
    assert before + segments == before + segments[..n] + [segments[n]];
    assert (pipe + [own])[..|pipe|] == pipe && (pipe + [own])[|pipe|] == own;
  }

  /** The first connection, the count being the same whenever it is read: `file` is
      None when it cannot be opened. A range that is not in the file gets an error and
      leaves the pipe alone. */
  method ParentSend(sock: Socket, compressed: bool, file: Option<seq<byte>>, req: Request, dict: Dictionary)
    requires WellFormed(dict) && req.offset + req.length < TWO_64
    requires file.Some? ==>
               && |file.value| < TWO_64
               && (compressed ==> Compressible(dict, req.session, file.value, OwnSegment(req)))
    modifies sock`sent, req`pipe
    ensures var segments := Segments(req.offset, req.length, req.numConnect);
            if file.Some? && req.offset + req.length <= |file.value| then
              && req.pipe == old(req.pipe) + segments[..req.numConnect]
              && segments[req.numConnect].offset + segments[req.numConnect].length <= |file.value|
              && sock.sent == old(sock.sent) +
                   SegmentReply(dict, compressed, req.session, file.value, segments[req.numConnect])
            else req.pipe == old(req.pipe) && sock.sent == old(sock.sent) + ErrorReply()
  {
    hide Tiles, Lengths, Pieces, SegmentReply, SegmentPayload, BytesOf, Encode, Sum, Steady;
    if file.None? || !Accepted(req.offset, req.length, |file.value|) {
      var n := SendAll(sock, ErrorReply());
      return;
    }
    var own := SplitRange(req, Steady(req.numConnect));
    SteadyPieces(req.length, req.numConnect);
    LastApart(req.pipe, own, old(req.pipe), Segments(req.offset, req.length, req.numConnect));
    SegmentInRange(req.offset, req.length, req.numConnect, req.numConnect);
    SendSegment(sock, compressed, req.session, file.value, own, dict);
  }

  lemma SegmentInRange(offset: nat, length: nat, n: nat, k: nat)
    requires k <= n
    ensures var s := Segments(offset, length, n)[k]; offset <= s.offset && s.offset + s.length <= offset + length
  {
    var lengths := Lengths(length / (n + 1), length % (n + 1), n + 1);
    SegmentsSum(length, n);
    TilesLength(offset, lengths);
    TileEnds(offset, lengths, k);
  }

  /** Any further connection: takes one record off the pipe and serves it. */
  method ChildSend(sock: Socket, compressed: bool, file: Option<seq<byte>>, req: Request, dict: Dictionary)
    requires WellFormed(dict) && req.pipe != []
    requires file.Some? ==>
               && req.pipe[0].offset + req.pipe[0].length <= |file.value|
               && (compressed ==> Compressible(dict, req.session, file.value, req.pipe[0]))
    modifies sock`sent, req`pipe
    ensures req.pipe == old(req.pipe)[1..]
    ensures sock.sent == old(sock.sent) +
              if file.Some? then SegmentReply(dict, compressed, req.session, file.value, old(req.pipe)[0])
              else ErrorReply()
  {
    hide SegmentReply, BytesOf, Encode;
    var s := req.pipe[0];
    req.pipe := req.pipe[1..];
    if file.None? {
      var n := SendAll(sock, ErrorReply());
      return;
    }
    SendSegment(sock, compressed, req.session, file.value, s, dict);
  }
}
