/** compression_optimized.c: the encoder that fills one byte at a time into a growing
    buffer and or-s the pad count into the last byte, the decoder that reads every bit
    of that, and the dictionary it falls back to when the file is missing. */
module GrowingEncoder {
  import opened Bits
  import opened Wrappers
  import opened PrefixCode
  import opened Messages
  import opened Compression
  import opened Trie
  import opened OptRoundTrip
  import opened CompressionOpt
  import JsDecompressor

  // ---------- what the encoder computes ----------

  /** The packed bits; when the last byte is not full the pad count is or-ed into it. */
  function GrownFrame(bs: bits): (r: seq<byte>) {
    var k := |bs| / 8;
    if Pad(|bs|) == 0 then Pack(bs)
    else Pack(bs[..8 * k]) + [OrPad(PackByte(bs[8 * k..]), Pad(|bs|))]
  }

  /** `current_byte |= bits_left` */
  function OrPad(b: byte, pad: nat): (r: byte)
    requires pad < 8
  {
    Pow2Of8();
    OrBound(8, b, pad);
    Or(b, pad)
  }

  // ---------- one byte of packing ----------

  lemma PackByteAppend(t: bits, b: bool)
    requires |t| < 8
    ensures PackByte(t + [b]) == if b then SetBit(PackByte(t), 7 - |t|) else PackByte(t)
  {
    var x, y := PackByte(t + [b]), if b then SetBit(PackByte(t), 7 - |t|) else PackByte(t);
    forall k: nat | k < 8 ensures Bit(x, k) == Bit(y, k) {
      PackByteBits(t + [b], 7 - k);
      PackByteBits(t, 7 - k);
      WriteBit(PackByte(t), 7 - |t|, k);
    }
    Pow2Of8();
    DigitsDetermine(8, x, y);
  }

  lemma {:induction false} PackNextByte(bs: bits, k: nat)
    requires 8 * k + 8 <= |bs|
    ensures Pack(bs[..8 * k + 8]) == Pack(bs[..8 * k]) + [PackByte(bs[8 * k..8 * k + 8])]
  {
    hide PackByte;
    var next := bs[..8 * k + 8];
    assert next[..8 * k] == bs[..8 * k] && next[8 * k..] == bs[8 * k..8 * k + 8];
  }

  // ---------- what the pad count does to the frame ----------

  lemma {:induction false} SmallNumber(b: nat)
    ensures b < Pow2(b)
  {
    if b > 0 {
      SmallNumber(b - 1);
    }
  }

  /** A number below 2^n has no digit from n on. */
  lemma {:induction false} NoHighDigit(a: nat, n: nat, k: nat)
    requires a < Pow2(n) && n <= k
    ensures !Bit(a, k)
  {
    if n == 0 {
      BitOfZero(k);
    } else {
      NoHighDigit(a / 2, n - 1, k - 1);
    }
  }

  lemma OrPadBit(t: bits, k: nat)
    requires 0 < |t| < 8 && k < 8
    ensures var pad := 8 - |t|;
            Bit(OrPad(PackByte(t), pad), k) == if k >= pad then t[7 - k] else Bit(pad, k)
  {
    hide PackByte, Bit, Or;
    var pad := 8 - |t|;
    BitOfOr(PackByte(t), pad, k);
    PackByteBits(t, 7 - k);
    SmallNumber(pad);
    if k >= pad {
      NoHighDigit(pad, pad, k);
    }
  }

  lemma AppendPadBit(t: bits, k: nat)
    requires 0 < |t| < 8 && k < 8
    ensures var pad := 8 - |t|;
            Bit(PackByte(t + Binary(pad, pad)), k) == if k >= pad then t[7 - k] else Bit(pad, k)
  {
    hide PackByte, Bit, Binary;
    var pad := 8 - |t|;
    PackByteBits(t + Binary(pad, pad), 7 - k);
    SmallNumber(pad);
    BinaryRoundTrip(pad, pad);
    BitOfBinaryValue(Binary(pad, pad), k);
  }

  /** The pad count fits in the padding, whose length it is: or-ing it in writes its
      binary digits there and leaves every code bit alone. */
  lemma {:induction false} OrPadIsAppend(t: bits)
    requires 0 < |t| < 8
    ensures OrPad(PackByte(t), 8 - |t|) == PackByte(t + Binary(8 - |t|, 8 - |t|))
  {
    var x, y := OrPad(PackByte(t), 8 - |t|), PackByte(t + Binary(8 - |t|, 8 - |t|));
    forall k: nat | k < 8 ensures Bit(x, k) == Bit(y, k) {
      OrPadBit(t, k);
      AppendPadBit(t, k);
    }
    Pow2Of8();
    DigitsDetermine(8, x, y);
  }

  lemma PadFacts(n: nat, k: nat)
    requires k == n / 8
    ensures Pad(n) == 0 <==> n % 8 == 0
    ensures Pad(n) > 0 ==> n + Pad(n) == 8 * k + 8
    ensures 8 * k <= n < 8 * k + 8 && (Pad(n) > 0 ==> (8 * k + 8) % 8 == 0)
  {
  }

  lemma {:induction false} GrownFrameLast(bs: bits)
    requires |bs| % 8 != 0
    ensures var k := |bs| / 8;
            GrownFrame(bs) == Pack(bs[..8 * k]) + [OrPad(PackByte(bs[8 * k..]), Pad(|bs|))]
  {
    hide Pack, PackByte, OrPad, Pad;
    PadFacts(|bs|, |bs| / 8);
  }

  lemma {:induction false} GrownFrameFull(bs: bits)
    requires |bs| % 8 == 0
    ensures GrownFrame(bs) == Pack(bs)
  {
    hide Pack, PackByte, OrPad, Pad;
    PadFacts(|bs|, |bs| / 8);
  }

  /** A frame with an incomplete last byte is the plain packing of a longer bit string:
      the code bits, then the pad count in binary. A reader that cannot tell the two
      apart cannot drop the padding. */
  lemma {:induction false} GrownFrameIsPack(bs: bits)
    ensures var long := bs + Binary(Pad(|bs|), Pad(|bs|));
            GrownFrame(bs) == GrownFrame(long) == Pack(long) && (|bs| % 8 != 0 ==> |long| > |bs|)
  {
    hide Pack, PackByte, OrPad, Binary, GrownFrame, Pad;
    var pad, k := Pad(|bs|), |bs| / 8;
    PadFacts(|bs|, k);
    if pad == 0 {
      assert bs + Binary(pad, pad) == bs;
      GrownFrameFull(bs);
    } else {
      GrownFrameLast(bs);
      PackLongFrame(bs, k, pad);
      GrownFrameFull(bs + Binary(pad, pad));
    }
  }

  lemma PackLongFrame(bs: bits, k: nat, pad: nat)
    requires 0 < pad < 8 && |bs| + pad == 8 * k + 8
    ensures Pack(bs + Binary(pad, pad)) == Pack(bs[..8 * k]) + [OrPad(PackByte(bs[8 * k..]), pad)]
  {
    hide Pack, PackByte, OrPad, Binary;
    var long, t := bs + Binary(pad, pad), bs[8 * k..];
    assert |t| == 8 - pad;
    OrPadIsAppend(t);
    PackNextByte(long, k);
    assert long[..8 * k + 8] == long && long[..8 * k] == bs[..8 * k];
    assert long[8 * k..8 * k + 8] == t + Binary(pad, pad);
  }

  /** Every input gives the code bits that compress gives, one byte shorter. */
  lemma {:induction false} SameCodeBits(d: Dictionary, m: seq<byte>)
    requires WellFormed(d)
    ensures var bs, grown, framed := Encode(d, m), GrownFrame(Encode(d, m)), Compressed(d, m);
            && |grown| + 1 == |framed| && |bs| <= 8 * |grown|
            && BitsOf(grown)[..|bs|] == bs == BitsOf(framed)[..|bs|]
  {
    hide Encode;
    var bs := Encode(d, m);
    var long := bs + Binary(Pad(|bs|), Pad(|bs|));
    GrownFrameIsPack(bs);
    PackBits(long);
    PackBits(bs);
    FrameBits(bs);
  }

  // ---------- the encoder ----------

  /** Takes in one code bit; a full byte goes to the buffer. */
  method PutBit(rep0: array<byte>, currByte0: nat, currentByte0: byte, totalCount: nat, b: bool, ghost bs: bits)
    returns (rep: array<byte>, currByte: nat, currentByte: byte)
    requires totalCount == |bs| && currByte0 == |bs| / 8 && currByte0 <= rep0.Length && rep0.Length > 0
    requires rep0[..currByte0] == Pack(bs[..8 * currByte0]) && currentByte0 == PackByte(bs[8 * currByte0..])
    modifies rep0
    ensures rep == rep0 || fresh(rep)
    ensures currByte == (|bs| + 1) / 8 && currByte <= rep.Length && rep.Length > 0
    ensures rep[..currByte] == Pack((bs + [b])[..8 * currByte]) && currentByte == PackByte((bs + [b])[8 * currByte..])
  {
    hide Pack, PackByte, SetBit;
    rep, currByte, currentByte := rep0, currByte0, currentByte0;
    var bitPosition := 7 - totalCount % 8;
    ghost var t, bs' := bs[8 * currByte..], bs + [b];
    PackByteAppend(t, b);
    assert bs'[8 * currByte..] == t + [b] && bs'[..8 * currByte] == bs[..8 * currByte];
    if b {
      currentByte := SetBit(currentByte, bitPosition);
    }
    if (totalCount + 1) % 8 == 0 {
      PackNextByte(bs', currByte);
      assert bs'[8 * currByte..8 * currByte + 8] == t + [b];
      rep := Push(rep, currByte, currentByte);
      currByte := currByte + 1;
      currentByte := 0;
      assert bs'[8 * currByte..] == [];
      EmptyByte();
    }
  }

  lemma EmptyByte()
    ensures PackByte([]) == 0
  {
    assert forall k: nat | k < 8 :: Bit(PackByte([]), k) == Bit(0, k) by {
      forall k: nat | k < 8 ensures Bit(PackByte([]), k) == Bit(0, k) {
        PackByteBits([], 7 - k);
        BitOfZero(k);
      }
    }
    Pow2Of8();
    DigitsDetermine(8, PackByte([]), 0);
  }

  /** Takes in a whole code, bit by bit. */
  method PutCode(rep0: array<byte>, currByte0: nat, currentByte0: byte, totalCount0: nat, e: Entry, ghost bs: bits)
    returns (rep: array<byte>, currByte: nat, currentByte: byte, totalCount: nat)
    requires e.codeLength == |e.code|
    requires totalCount0 == |bs| && currByte0 == |bs| / 8 && currByte0 <= rep0.Length && rep0.Length > 0
    requires rep0[..currByte0] == Pack(bs[..8 * currByte0]) && currentByte0 == PackByte(bs[8 * currByte0..])
    modifies rep0
    ensures rep == rep0 || fresh(rep)
    ensures totalCount == |bs + e.code| && currByte == |bs + e.code| / 8 && currByte <= rep.Length && rep.Length > 0
    ensures rep[..currByte] == Pack((bs + e.code)[..8 * currByte])
    ensures currentByte == PackByte((bs + e.code)[8 * currByte..])
  {
    hide Pack, PackByte;
    rep, currByte, currentByte, totalCount := rep0, currByte0, currentByte0, totalCount0;
    ghost var now := bs;
    assert bs + e.code[..0] == bs;
    for j := 0 to e.codeLength
      invariant rep == rep0 || fresh(rep)
      invariant now == bs + e.code[..j] && totalCount == |now| && currByte == |now| / 8
      invariant currByte <= rep.Length && rep.Length > 0
      invariant rep[..currByte] == Pack(now[..8 * currByte]) && currentByte == PackByte(now[8 * currByte..])
    {
      rep, currByte, currentByte := PutBit(rep, currByte, currentByte, totalCount, e.code[j], now);
      assert now + [e.code[j]] == bs + e.code[..j + 1];
      now := now + [e.code[j]];
      totalCount := totalCount + 1;
    }
    assert e.code[..e.codeLength] == e.code;
  }

  method CompressOptimized(input: Message, dict: Dictionary)
    requires WellFormed(dict) && input.Valid() && |Encode(dict, input.buffer)| <= INT_MAX
    modifies input`length, input`buffer
    ensures input.Valid()
    ensures input.buffer == GrownCompressed(dict, old(input.buffer))
  {
    hide Encode, Pack, PackByte, GrownFrame, OrPad;
    if input.length == 0 {
      return;
    }
    var rep := new byte[input.length * 2];
    var currByte, totalCount, currentByte: byte := 0, 0, 0;
    ghost var m, bs := input.buffer, [];
    EncodeNothing(dict);
    assert m[..0] == [];
    NothingPacked(rep[..0]);
    for i := 0 to input.length
      invariant input.buffer == m && input.length == |m| && fresh(rep)
      invariant bs == Encode(dict, m[..i]) && totalCount == |bs| && currByte == |bs| / 8
      invariant currByte <= rep.Length && rep.Length > 0
      invariant rep[..currByte] == Pack(bs[..8 * currByte]) && currentByte == PackByte(bs[8 * currByte..])
    {
      var e := dict[input.buffer[i]];
      EncodeNext(dict, m, i);
      rep, currByte, currentByte, totalCount := PutCode(rep, currByte, currentByte, totalCount, e, bs);
      bs := bs + e.code;
    }
    assert m[..|m|] == m;
    if totalCount % 8 != 0 {
      GrownFrameLast(bs);
      var bitsLeft := (8 - totalCount % 8) % 8;
      rep := Push(rep, currByte, OrPad(currentByte, bitsLeft));
      currByte := currByte + 1;
    } else {
      GrownFrameFull(bs);
      assert bs[..8 * currByte] == bs;
    }
    input.buffer := rep[..currByte];
    input.length := currByte;
  }

  lemma NothingPacked(r: seq<byte>)
    requires r == []
    ensures r == Pack([]) && PackByte([]) == 0
  {
    EmptyByte();
  }

  // ---------- the decoder ----------

  /** What the encoder makes of a message. */
  function GrownCompressed(d: Dictionary, m: seq<byte>): (r: seq<byte>)
    requires |d| == 256
  {
    if m == [] then [] else GrownFrame(Encode(d, m))
  }

  /** The decoder does not drop the padding: it scans every bit. */
  function GrownDecompressed(d: Dictionary, data: seq<byte>): (r: seq<byte>) {
    Scan(d, START, BitsOf(data)).output
  }

  /** Takes in bit j (counted from 8 down to 1) of byte i. */
  method TakeBit(dict: Dictionary, data: seq<byte>, i: nat, j: nat, rep0: array<byte>, size0: nat, buffer0: bits)
    returns (rep: array<byte>, size: nat, buffer: bits)
    requires WellFormed(dict) && i < |data| && 1 <= j <= 8 && size0 <= rep0.Length && rep0.Length > 0
    requires ScanFirst(dict, data, 8 * i + 8 - j) == Scanner(rep0[..size0], buffer0)
    modifies rep0
    ensures (rep == rep0 || fresh(rep)) && size <= rep.Length && rep.Length > 0
    ensures ScanFirst(dict, data, 8 * i + 9 - j) == Scanner(rep[..size], buffer)
  {
    hide ScanFirst, Scan;
    rep, size := rep0, size0;
    ScanNextBit(dict, data, i, j - 1, Scanner(rep0[..size0], buffer0));
    buffer := buffer0 + [ShiftedBit(data[i], j - 1)];
    var found := JsDecompressor.FindEntry(dict, buffer);
    if found.Some? {
      rep := Push(rep, size, found.value);
      size := size + 1;
      buffer := [];
    }
  }

  method DecompressOptimized(input: Message, dict: Dictionary)
    requires WellFormed(dict) && input.Valid() && 8 * |input.buffer| <= INT_MAX
    modifies input`length, input`buffer
    ensures input.Valid()
    ensures input.buffer == GrownDecompressed(dict, old(input.buffer))
  {
    hide ScanFirst, Scan;
    ghost var data := input.buffer;
    ScanNothing(dict, data);
    ScanEverything(dict, data);
    if input.length == 0 {
      return;
    }
    var rep := new byte[input.length * 8];
    var size: nat, buffer: bits := 0, [];
    for i := 0 to input.length
      invariant input.buffer == data && input.length == |data| && fresh(rep)
      invariant size <= rep.Length && rep.Length > 0
      invariant ScanFirst(dict, data, 8 * i) == Scanner(rep[..size], buffer)
    {
      var j := 8;
      while j >= 1
        invariant 0 <= j <= 8 && input.buffer == data && input.length == |data| && fresh(rep)
        invariant size <= rep.Length && rep.Length > 0
        invariant ScanFirst(dict, data, 8 * i + 8 - j) == Scanner(rep[..size], buffer)
      {
        rep, size, buffer := TakeBit(dict, input.buffer, i, j, rep, size, buffer);
        j := j - 1;
      }
    }
    input.buffer := rep[..size];
    input.length := size;
  }

  lemma ScanEverything(d: Dictionary, data: seq<byte>)
    ensures ScanFirst(d, data, 8 * |data|).output == GrownDecompressed(d, data)
    ensures data == [] ==> GrownDecompressed(d, data) == []
  {
    assert BitsOf(data)[..8 * |data|] == BitsOf(data);
  }

  /** The exact condition: a message comes back when the digits of the pad count hold
      no code, for they are read as code bits. */
  lemma {:induction false} GrownRoundTripIff(d: Dictionary, m: seq<byte>)
    requires WellFormed(d) && PrefixFree(d) && NonemptyCodes(d)
    ensures var p := Pad(|Encode(d, m)|);
            GrownDecompressed(d, GrownCompressed(d, m)) == m <==> NoCodeInside(d, Binary(p, p))
  {
    hide Encode, Scan, BitsOf, Pack, GrownFrame, Binary, Pad, PrefixFree, NonemptyCodes, NoCodeInside;
    if m == [] {
      EncodeNothing(d);
      ScanEverything(d, m);
      PadFacts(0, 0);
      NothingInside(d, Binary(Pad(0), Pad(0)));
    } else {
      var bs := Encode(d, m);
      var pad := Binary(Pad(|bs|), Pad(|bs|));
      GrownFrameBits(bs);
      var s := Scan(d, START, bs + pad);
      ScanUnique(d, bs + pad, m, pad);
      ScanUnique(d, bs + pad, s.output, s.pending);
      if s.output == m {
        assert (bs + pad)[|bs|..] == pad == s.pending;
      }
    }
  }

  lemma NothingInside(d: Dictionary, p: bits)
    requires p == []
    ensures NoCodeInside(d, p)
  {
  }

  /** The bits of a frame are the code bits and the digits of the pad count. */
  lemma GrownFrameBits(bs: bits)
    ensures BitsOf(GrownFrame(bs)) == bs + Binary(Pad(|bs|), Pad(|bs|))
  {
    hide Pack, GrownFrame, Binary;
    var long := bs + Binary(Pad(|bs|), Pad(|bs|));
    GrownFrameIsPack(bs);
    PackBits(long);
    assert |long| % 8 == 0 by {
      PadFacts(|bs|, |bs| / 8);
    }
    assert long + Zeros(0) == long;
  }

  /** With a prefix code whose codes are all longer than seven bits nothing is lost. */
  lemma LongCodesSurvive(d: Dictionary, m: seq<byte>)
    requires WellFormed(d) && PrefixFree(d) && forall i :: 0 <= i < 256 ==> |d[i].code| > 7
    ensures GrownDecompressed(d, GrownCompressed(d, m)) == m
  {
    hide Encode, PrefixFree, GrownDecompressed, GrownCompressed;
    var p := Pad(|Encode(d, m)|);
    assert NonemptyCodes(d);
    GrownRoundTripIff(d, m);
    forall n | 1 <= n <= p ensures FirstMatch(d, Binary(p, p)[..n], 0) == None {
      FirstMatchNone(d, Binary(p, p)[..n], 0);
    }
  }

  /** A byte with a one-bit code does not come back: the seven digits of its pad count
      begin with that code. */
  lemma PadCountDecoded()
    ensures var d := OneBitCode(); GrownDecompressed(d, GrownCompressed(d, [0])) != [0]
  {
    hide PrefixFree, GrownDecompressed, GrownCompressed, Encode, Binary;
    var d := OneBitCode();
    OneBitIsPrefixCode();
    EncodeOne(d, 0);
    GrownRoundTripIff(d, [0]);
    assert Pow2(6) == 4 * Pow2(4) == 16 * Pow2(2);
    FirstDigit(7, 7);
    assert Binary(7, 7)[..1] == [false] == CodeOf(d, 0);
    PrefixFreeIsDistinct(d);
    CodeMatchesItself(d, 0);
  }

  lemma {:induction false} FirstDigit(v: nat, n: nat)
    requires 0 < n && v < Pow2(n - 1)
    ensures !Binary(v, n)[0]
  {
    if n > 1 {
      FirstDigit(v / 2, n - 1);
    }
  }

  // ---------- the fallback dictionary ----------

  /** Every byte stands for itself: its code is its own eight bits. */
  method FallbackDictionary() returns (compressor: Dictionary)
    ensures WellFormed(compressor)
    ensures forall i :: 0 <= i < 256 ==> compressor[i].code == BitsOf([i])
  {
    compressor := [];
    for i := 0 to 256
      invariant |compressor| == i
      invariant forall k :: 0 <= k < i ==> compressor[k] == Entry(k, 8, BitsOf([k]))
    {
      var code: bits := [];
      for j := 0 to 8
        invariant code == BitsOf([i])[..j]
      {
        BitIndex([i], 0, 7 - j);
        code := code + [ShiftedBit(i, 7 - j)];
      }
      assert code == BitsOf([i]);
      compressor := compressor + [Entry(i, 8, code)];
    }
  }

  ghost predicate IsFallback(d: Dictionary) {
    WellFormed(d) && forall i :: 0 <= i < 256 ==> d[i].code == BitsOf([i])
  }

  /** The fallback is a complete prefix code of nonempty codes. */
  lemma FallbackIsCompleteCode(d: Dictionary)
    requires IsFallback(d)
    ensures PrefixFree(d) && NonemptyCodes(d) && Complete(d)
  {
    forall i, j | 0 <= i < 256 && 0 <= j < 256 && i != j ensures !Starts(d, i, j) {
      DifferentBits(i, j);
      assert |d[i].code| == |d[j].code|;
    }
    forall p: bits ensures OnPath(d, p, 256) || exists i :: 0 <= i < 256 && d[i].code <= p {
      var q := if |p| >= 8 then p[..8] else p;
      var i := PackByte(q);
      SingleByteBits(q);
      assert d[i].code == q + Zeros(8 - |q|);
      if |p| >= 8 {
        assert d[i].code <= p;
      } else {
        assert p <= d[i].code;
      }
    }
  }

  lemma SingleByteBits(bs: bits)
    requires |bs| <= 8
    ensures BitsOf([PackByte(bs)]) == bs + Zeros(8 - |bs|)
  {
    var l, r := BitsOf([PackByte(bs)]), bs + Zeros(8 - |bs|);
    forall i | 0 <= i < 8 ensures l[i] == r[i] {
      PackByteBits(bs, i);
      BitIndex([PackByte(bs)], 0, 7 - i);
    }
  }

  /** With the fallback, coding is the identity on bits. */
  lemma {:induction false} FallbackEncode(d: Dictionary, m: seq<byte>)
    requires IsFallback(d)
    ensures Encode(d, m) == BitsOf(m)
  {
    if m == [] {
    } else {
      var init, b := m[..|m| - 1], m[|m| - 1];
      FallbackEncode(d, init);
      BitsOfAppend(init, [b]);
      assert init + [b] == m;
    }
  }

  /** With the fallback the encoder gives the message itself. */
  lemma {:induction false} FallbackIsIdentity(d: Dictionary, m: seq<byte>)
    requires IsFallback(d)
    ensures GrownCompressed(d, m) == m && GrownDecompressed(d, m) == m
  {
    hide Pack, Encode, GrownFrame, GrownDecompressed;
    FallbackEncode(d, m);
    PackBits(BitsOf(m));
    assert Zeros(Pad(8 * |m|)) == [];
    BitsOfInjective(Pack(BitsOf(m)), m);
    GrownFrameFull(BitsOf(m));
    FallbackIsCompleteCode(d);
    LongCodesSurvive(d, m);
  }
}
