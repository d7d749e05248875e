/** compression.c: packing a message into a frame (code bits, zero padding, one
    byte with the padding length) and the table-scan decoder that reads it. */
module Compression {
  import opened Bits
  import opened Wrappers
  import opened PrefixCode
  import opened Messages

  // ---------- what the two operations compute ----------

  /** The frame of a bit string: its bytes, padded with zeros, then the pad count. */
  function Frame(bs: bits): (r: seq<byte>) {
    Pack(bs) + [Pad(|bs|)]
  }

  /** How many code bits a frame claims to hold; not positive for a broken frame. */
  function TotalBits(frame: seq<byte>): (r: int)
    requires |frame| > 0
  {
    8 * (|frame| - 1) - frame[|frame| - 1]
  }

  function Compressed(d: Dictionary, m: seq<byte>): (r: seq<byte>)
    requires |d| == 256
  {
    Frame(Encode(d, m))
  }

  /** What the scan has after the first n bits of a buffer. */
  function ScanFirst(d: Dictionary, data: seq<byte>, n: nat): (r: Scanner)
    requires n <= 8 * |data|
  {
    Scan(d, START, BitsOf(data)[..n])
  }

  lemma ScanNothing(d: Dictionary, data: seq<byte>)
    ensures ScanFirst(d, data, 0) == START
  {
  }

  lemma ScanNextBit(d: Dictionary, data: seq<byte>, i: nat, k: nat, s: Scanner)
    requires i < |data| && k < 8 && ScanFirst(d, data, 8 * i + 7 - k) == s
    ensures ScanFirst(d, data, 8 * i + 8 - k) == Feed(d, s, Bit(data[i], k))
  {
    BitIndex(data, i, k);
    ScanNext(d, BitsOf(data), 8 * i + 7 - k);
  }

  /** The C decoder leaves a frame that claims no bits as it is. */
  function Decompressed(d: Dictionary, frame: seq<byte>): (r: seq<byte>)
    requires |frame| > 0
  {
    if TotalBits(frame) <= 0 then frame
    else ScanFirst(d, frame, TotalBits(frame)).output
  }

  /** A frame is the code bits, fewer than eight zeros up to a whole byte, and a byte
      that says how many zeros these are. */
  lemma FrameLayout(bs: bits)
    ensures var f := Frame(bs);
            var n := |f| - 1;
            && n == (|bs| + 7) / 8
            && f[n] == 8 * n - |bs| < 8
            && BitsOf(f)[..8 * n] == bs + Zeros(f[n])
  {
    hide Pack;
    PackBits(bs);
    BitsOfAppend(Pack(bs), [Pad(|bs|)]);
  }

  // ---------- compress ----------

  /** The bytes written so far hold the bits bs, then arbitrary bits. */
  ghost predicate Holds(rep: seq<byte>, bs: bits) {
    |rep| == (|bs| + 7) / 8 && forall k: nat | k < |bs| :: BitAt(rep, k) == bs[k]
  }

  /** Storing one bit at the cursor keeps the bits before it. */
  lemma StoreBit(rep: seq<byte>, bs: bits, b: bool, rep': seq<byte>)
    requires |rep| == |bs| / 8 + 1 && Holds(rep[..(|bs| + 7) / 8], bs)
    requires var i, k := |bs| / 8, 7 - |bs| % 8;
             rep' == rep[i := if b then SetBit(rep[i], k) else ClearBit(rep[i], k)]
    ensures Holds(rep', bs + [b])
  {
    forall k: nat | k < |bs| + 1 ensures BitAt(rep', k) == (bs + [b])[k] {
      if k / 8 == |bs| / 8 {
        WriteBit(rep[k / 8], 7 - |bs| % 8, 7 - k % 8);
      }
      if k < |bs| {
        assert BitAt(rep[..(|bs| + 7) / 8], k) == bs[k];
      }
    }
  }

  /** Clears the unused bits of the last byte (compress's padding loop). */
  method ZeroPad(start: seq<byte>, startBit: nat, ghost bs: bits) returns (rep: seq<byte>)
    requires Holds(start, bs) && startBit == 8 - |bs| % 8
    ensures rep == Pack(bs)
  {
    rep := start;
    var currBit := startBit;
    ghost var padded := bs;
    while currBit > 0 && currBit != 8
      invariant Holds(rep, padded) && |rep| == |start|
      invariant |padded| >= |bs| && padded == bs + Zeros(|padded| - |bs|)
      invariant if startBit == 8 then currBit == 8 && padded == bs else currBit < 8 && |padded| == 8 * |rep| - currBit
    {
      ghost var before := rep;
      rep := rep[|rep| - 1 := ClearBit(rep[|rep| - 1], currBit - 1)];
      assert before[..(|padded| + 7) / 8] == before;
      StoreBit(before, padded, false, rep);
      padded := padded + [false];
      currBit := currBit - 1;
    }
    assert |padded| == 8 * |rep|;
    PackUnique(rep, bs);
  }

  /** Appends one code bit at the cursor, growing the representation by an
      uninitialised byte when the last one is full. */
  method AppendBit(rep0: seq<byte>, currByte0: nat, currBit0: nat, b: bool, ghost bs: bits)
    returns (rep: seq<byte>, currByte: nat, currBit: nat)
    requires Holds(rep0, bs) && currByte0 == |rep0| && currBit0 == 8 - |bs| % 8
    ensures Holds(rep, bs + [b]) && currByte == |rep| && currBit == 8 - (|bs| + 1) % 8
  {
    rep, currByte, currBit := rep0, currByte0, currBit0;
    if currBit == 8 {
      currByte := currByte + 1;
      var garbage: byte := *;
      rep := rep + [garbage];
    }
    ghost var grown := rep;
    assert grown[..(|bs| + 7) / 8] == rep0;
    if b {
      rep := rep[currByte - 1 := SetBit(rep[currByte - 1], currBit - 1)];
    } else {
      rep := rep[currByte - 1 := ClearBit(rep[currByte - 1], currBit - 1)];
    }
    StoreBit(grown, bs, b, rep);
    currBit := currBit - 1;
    if currBit == 0 {
      currBit := 8;
    }
  }

  /** Appends a whole code, bit by bit. */
  method AppendCode(rep0: seq<byte>, currByte0: nat, currBit0: nat, e: Entry, ghost bs: bits)
    returns (rep: seq<byte>, currByte: nat, currBit: nat)
    requires Holds(rep0, bs) && currByte0 == |rep0| && currBit0 == 8 - |bs| % 8
    requires e.codeLength == |e.code|
    ensures Holds(rep, bs + e.code) && currByte == |rep| && currBit == 8 - |bs + e.code| % 8
  {
    rep, currByte, currBit := rep0, currByte0, currBit0;
    var j := 0;
    assert bs + e.code[..0] == bs;
    while j < e.codeLength
      invariant 0 <= j <= e.codeLength
      invariant Holds(rep, bs + e.code[..j]) && currByte == |rep| && currBit == 8 - (|bs| + j) % 8
    {
      rep, currByte, currBit := AppendBit(rep, currByte, currBit, e.code[j], bs + e.code[..j]);
      assert bs + e.code[..j] + [e.code[j]] == bs + e.code[..j + 1];
      j := j + 1;
    }
    assert e.code[..j] == e.code;
  }

  method Compress(input: Message, dict: Dictionary)
    requires WellFormed(dict) && input.Valid()
    requires |input.buffer| <= INT_MAX && |Encode(dict, input.buffer)| <= INT_MAX
    modifies input`length, input`buffer
    ensures input.Valid()
    ensures input.buffer == Compressed(dict, old(input.buffer))
    ensures var bs, f := Encode(dict, old(input.buffer)), input.buffer;
            var n := |f| - 1;
            n == (|bs| + 7) / 8 && f[n] == 8 * n - |bs| && BitsOf(f)[..8 * n] == bs + Zeros(f[n])
  {
    hide Encode, Pack;
    var rep: seq<byte> := [];
    var currByte, currBit, totalCount := 0, 8, 0;
    ghost var m, bs := input.buffer, [];
    EncodeNothing(dict);
    assert m[..0] == [];
    var i := 0;
    while i < input.length
      invariant 0 <= i <= |m| && input.buffer == m && input.length == |m|
      invariant bs == Encode(dict, m[..i]) && totalCount == |bs| <= INT_MAX
      invariant Holds(rep, bs) && currByte == |rep| && currBit == 8 - |bs| % 8
    {
      var e := dict[input.buffer[i]];
      EncodeNext(dict, m, i);
      rep, currByte, currBit := AppendCode(rep, currByte, currBit, e, bs);
      bs := bs + e.code;
      totalCount := totalCount + e.codeLength;
      i := i + 1;
    }
    assert m[..i] == m;
    rep := ZeroPad(rep, currBit, bs);
    PackLength(bs);
    currByte := currByte + 1;
    var bitsLeft: byte := (8 - totalCount % 8) % 8;
    rep := rep + [bitsLeft];
    input.length := currByte;
    input.buffer := rep;
    FrameLayout(bs);
  }

  // ---------- decompress ----------

  /** The scan of the whole table for an entry equal to the collected bits. */
  method ScanTable(dict: Dictionary, buffer: bits, count: nat) returns (found: Option<byte>)
    requires WellFormed(dict) && count == |buffer|
    ensures found == FirstMatch(dict, buffer, 0)
  {
    var q := 0;
    while q < 256
      invariant 0 <= q <= 256 && FirstMatch(dict, buffer, q) == FirstMatch(dict, buffer, 0)
    {
      if dict[q].codeLength == count {
        if dict[q].code == buffer {
          return Some(dict[q].byte);
        }
      }
      q := q + 1;
    }
    return None;
  }

  /** Takes in bit j (counted from 8 down to 1) of byte i: when it completes a code,
      that code's byte is appended to the representation and the collected bits
      are dropped. */
  method TakeBit(dict: Dictionary, data: seq<byte>, i: nat, j: nat, rep0: seq<byte>, buffer0: bits, count0: nat)
    returns (rep: seq<byte>, buffer: bits, count: nat)
    requires WellFormed(dict) && count0 == |buffer0| && i < |data| && 1 <= j <= 8
    requires ScanFirst(dict, data, 8 * i + 8 - j) == Scanner(rep0, buffer0)
    ensures ScanFirst(dict, data, 8 * i + 9 - j) == Scanner(rep, buffer) && count == |buffer|
  {
    hide ScanFirst, Scan;
    rep, buffer, count := rep0, buffer0, count0;
    count := count + 1;
    var bit := MaskedBit(data[i], j - 1);
    buffer := buffer + [bit];
    var found := ScanTable(dict, buffer, count);
    if found.Some? {
      rep := rep + [found.value];
      count := 0;
      buffer := [];
    }
    ScanNextBit(dict, data, i, j - 1, Scanner(rep0, buffer0));
  }

  /** What is decoded, in full. */
  lemma DecompressedIs(d: Dictionary, data: seq<byte>)
    requires data != []
    ensures var n := 8 * (|data| - 1) - data[|data| - 1];
            Decompressed(d, data) == if n <= 0 then data else Scan(d, START, BitsOf(data)[..n]).output
  {
  }

  method Decompress(input: Message, dict: Dictionary)
    requires WellFormed(dict) && input.Valid()
    requires |input.buffer| > 0 && TotalBits(input.buffer) <= INT_MAX
    modifies input`length, input`buffer
    ensures input.Valid()
    ensures input.buffer == Decompressed(dict, old(input.buffer))
    ensures var data := old(input.buffer);
            var n := 8 * (|data| - 1) - data[|data| - 1];
            input.buffer == if n <= 0 then data else Scan(dict, START, BitsOf(data)[..n]).output
  {
    hide ScanFirst, Scan, BitsOf;
    DecompressedIs(dict, input.buffer);
    var rep: seq<byte> := [];
    var buffer: bits := [];
    var count, currBits := 0, 0;
    var totalBits := (input.length - 1) * 8 - input.buffer[input.length - 1];
    ghost var data := input.buffer;
    ScanNothing(dict, data);
    var i := 0;
    while i < input.length
      invariant 0 <= i <= input.length && input.length == |data| && input.buffer == data
      invariant currBits == 8 * i && count == |buffer|
      invariant totalBits > 0 ==> currBits < totalBits
      invariant ScanFirst(dict, data, currBits) == Scanner(rep, buffer)
    {
      var j := 8;
      while j > 0
        invariant 0 <= j <= 8 && input.length == |data| && input.buffer == data
        invariant currBits == 8 * i + 8 - j && count == |buffer|
        invariant totalBits > 0 ==> currBits < totalBits
        invariant ScanFirst(dict, data, currBits) == Scanner(rep, buffer)
      {
        rep, buffer, count := TakeBit(dict, input.buffer, i, j, rep, buffer, count);
        currBits := currBits + 1;
        if currBits == totalBits {
          input.buffer := rep;
          input.length := |rep|;
          return;
        }
        j := j - 1;
      }
      i := i + 1;
    }
  }

  // ---------- decompress undoes compress ----------

  /** A frame gives back its code bits: the pad count cuts off exactly the padding. */
  lemma {:induction false} FrameBits(bs: bits)
    ensures TotalBits(Frame(bs)) == |bs|
    ensures BitsOf(Frame(bs))[..|bs|] == bs
  {
    PackBits(bs);
    BitsOfAppend(Pack(bs), [Pad(|bs|)]);
  }

  lemma {:induction false} DecompressedFrame(d: Dictionary, bs: bits)
    ensures Decompressed(d, Frame(bs)) == if bs == [] then [0] else Scan(d, START, bs).output
  {
    FrameBits(bs);
  }

  /** With a prefix code every message but the empty one survives; the empty one
      comes back as the single pad byte. This law and the ones below are about the
      functions; the methods compute them while the counts of bits fit an int. */
  lemma {:induction false} RoundTrip(d: Dictionary, m: seq<byte>)
    requires WellFormed(d) && PrefixFree(d) && NonemptyCodes(d)
    ensures Decompressed(d, Compressed(d, m)) == m <==> m != []
  {
    DecompressedFrame(d, Encode(d, m));
    ScanEncode(d, m);
    if m != [] {
      var init, b := m[..|m| - 1], m[|m| - 1];
      assert |Encode(d, m)| >= |CodeOf(d, b)| > 0;
    }
  }

  /** A dictionary that is not a prefix code loses some nonempty message. */
  lemma {:induction false} LostMessage(d: Dictionary) returns (m: seq<byte>)
    requires WellFormed(d) && !(PrefixFree(d) && NonemptyCodes(d))
    ensures m != [] && Decompressed(d, Compressed(d, m)) != m
  {
    if i: byte :| d[i].code == [] {
      m := [i, i];
      assert m == [i] + [i];
      EncodeSnoc(d, [i], i);
      EncodeOne(d, i);
      DecompressedFrame(d, []);
    } else {
      var i: byte, j: byte :| i != j && Starts(d, i, j);
      if d[i].code == d[j].code && j < i {
        i, j := j, i;
      }
      ClashingCodeLost(d, i, j);
      m := [j];
      EncodeOne(d, j);
      DecompressedFrame(d, d[j].code);
    }
  }

  /** The dictionaries with which compression loses no nonempty message are
      exactly the prefix codes. */
  lemma {:induction false} LosslessIffPrefixCode(d: Dictionary)
    requires WellFormed(d)
    ensures (forall m :: m != [] ==> Decompressed(d, Compressed(d, m)) == m) <==> PrefixFree(d) && NonemptyCodes(d)
  {
    if PrefixFree(d) && NonemptyCodes(d) {
      forall m | m != [] ensures Decompressed(d, Compressed(d, m)) == m {
        RoundTrip(d, m);
      }
    } else {
      var m := LostMessage(d);
    }
  }
}
