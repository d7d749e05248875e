/** The dictionary file: 256 entries back to back, each an eight-bit code length
    followed by that many code bits. Three programs parse it. */
module DictionaryFile {
  import opened Bits
  import opened PrefixCode

  // ---------- what a file contains ----------

  /** The n bits from position p on, or as many of them as the file has. */
  function Avail(bs: bits, p: nat, n: nat): (r: bits)
    ensures |r| <= n
  {
    if p >= |bs| then [] else if p + n <= |bs| then bs[p..p + n] else bs[p..]
  }

  /** The first k digits of the length field at p, each in its place. */
  function PartialLength(bs: bits, p: nat, k: nat): (r: nat)
    requires k <= 8
  {
    Shl(BinaryValue(Avail(bs, p, k)), 8 - |Avail(bs, p, k)|)
  }

  /** The length field at p; digits missing from a cut-off field count as zeros. */
  function LengthAt(bs: bits, p: nat): (r: nat) {
    PartialLength(bs, p, 8)
  }

  datatype Parsed = Parsed(entries: Dictionary, pos: nat)

  function EntryAt(bs: bits, p: nat, b: byte): (r: Entry) {
    Entry(b, LengthAt(bs, p), Avail(bs, p + |Avail(bs, p, 8)|, LengthAt(bs, p)))
  }

  /** The first n entries of a file and where they end. */
  function Parse(bs: bits, n: nat): (r: Parsed)
    requires n <= 256
    ensures |r.entries| == n
  {
    if n == 0 then Parsed([], 0)
    else
      var before := Parse(bs, n - 1);
      var e := EntryAt(bs, before.pos, n - 1);
      Parsed(before.entries + [e], before.pos + |Avail(bs, before.pos, 8)| + |e.code|)
  }

  /** What is left of a field at the end of the file. */
  lemma AvailIs(bs: bits, p: nat, n: nat)
    ensures |Avail(bs, p, n)| == if p + n <= |bs| then n else if p <= |bs| then |bs| - p else 0
    ensures forall i :: 0 <= i < |Avail(bs, p, n)| ==> Avail(bs, p, n)[i] == bs[p + i]
  {
  }

  /** A length field that the end of the file cuts off is read as if zeros followed. */
  lemma CutOffLength(bs: bits, p: nat)
    ensures var f := Avail(bs, p, 8); LengthAt(bs, p) == BinaryValue(f + Zeros(8 - |f|))
  {
    var f := Avail(bs, p, 8);
    ZerosShift(f, 8 - |f|);
  }

  lemma {:induction false} ZerosShift(f: bits, k: nat)
    ensures BinaryValue(f + Zeros(k)) == Shl(BinaryValue(f), k)
  {
    if k == 0 {
      assert f + Zeros(0) == f;
    } else {
      ZerosShift(f, k - 1);
      assert f + Zeros(k) == f + Zeros(k - 1) + [false];
      ValueAppend(f + Zeros(k - 1), false);
      ShlDouble(BinaryValue(f), k - 1);
    }
  }

  /** The file holds entry n - 1 and all before it in full. */
  ghost predicate Enough(bs: bits, n: nat)
    requires n <= 256
  {
    n > 0 ==>
      var p := Parse(bs, n - 1).pos;
      Enough(bs, n - 1) && p + 8 <= |bs| && p + 8 + LengthAt(bs, p) <= |bs|
  }

  lemma LengthBound(bs: bits, p: nat)
    ensures LengthAt(bs, p) < 256
  {
    var f := Avail(bs, p, 8);
    ShlLess(BinaryValue(f), |f|, 8 - |f|);
    Pow2Of8();
  }

  lemma {:induction false} ShlLess(v: nat, n: nat, k: nat)
    requires v < Pow2(n)
    ensures Shl(v, k) < Pow2(n + k)
  {
    if k > 0 {
      ShlLess(v, n, k - 1);
    }
  }

  lemma {:induction false} EnoughIsWellFormed(bs: bits, n: nat)
    requires n <= 256 && Enough(bs, n)
    ensures forall i :: 0 <= i < n ==>
              var e := Parse(bs, n).entries[i]; e.byte == i && e.codeLength == |e.code| < 256
    ensures Parse(bs, n).pos <= |bs|
  {
    if n > 0 {
      EnoughIsWellFormed(bs, n - 1);
      LengthBound(bs, Parse(bs, n - 1).pos);
    }
  }

  // ---------- writing a table and parsing it back ----------

  /** The serialised first n entries of a table. */
  function Serialized(d: Dictionary, n: nat): (r: bits)
    requires n <= |d|
  {
    if n == 0 then [] else Serialized(d, n - 1) + Binary(|d[n - 1].code|, 8) + d[n - 1].code
  }

  lemma {:induction false} SerializedPrefix(d: Dictionary, n: nat, m: nat)
    requires n <= m <= |d|
    ensures Serialized(d, n) <= Serialized(d, m)
  {
    if n < m {
      SerializedPrefix(d, n, m - 1);
      assert Serialized(d, m - 1) <= Serialized(d, m);
    }
  }

  lemma ParseStep(bs: bits, n: nat, size: nat, code: bits)
    requires n < 256 && size == LengthAt(bs, Parse(bs, n).pos)
    requires code == Avail(bs, Parse(bs, n).pos + |Avail(bs, Parse(bs, n).pos, 8)|, size)
    ensures Parse(bs, n + 1) ==
            Parsed(Parse(bs, n).entries + [Entry(n, size, code)],
                   Parse(bs, n).pos + |Avail(bs, Parse(bs, n).pos, 8)| + |code|)
  {
    hide Avail, LengthAt;
  }

  lemma ParseNothing(bs: bits, d: Dictionary)
    ensures Parse(bs, 0) == Parsed([], 0) && Enough(bs, 0) && Serialized(d, 0) == []
  {
  }

  lemma ParseNext(bs: bits, n: nat, e: Entry)
    requires n < 256 && Enough(bs, n) && e.byte == n && e.codeLength == |e.code|
    requires Parse(bs, n).pos + 8 + |e.code| <= |bs| && EntryAt(bs, Parse(bs, n).pos, n) == e
    ensures Parse(bs, n + 1) == Parsed(Parse(bs, n).entries + [e], Parse(bs, n).pos + 8 + |e.code|)
    ensures Enough(bs, n + 1)
  {
  }

  /** An entry written at p is read back from p. */
  lemma EntryReadBack(bs: bits, p: nat, e: Entry)
    requires e.codeLength == |e.code| < 256 && p + 8 + |e.code| <= |bs|
    requires bs[p..p + 8] == Binary(|e.code|, 8) && bs[p + 8..p + 8 + |e.code|] == e.code
    ensures LengthAt(bs, p) == |e.code| && EntryAt(bs, p, e.byte) == e
  {
    Pow2Of8();
    BinaryRoundTrip(|e.code|, 8);
    assert Avail(bs, p, 8) == Binary(|e.code|, 8);
  }

  /** Where entry n of a serialised table lies. */
  lemma SerializedEntry(d: Dictionary, rest: bits, n: nat)
    requires n < |d|
    ensures var bs, p, e := Serialized(d, |d|) + rest, |Serialized(d, n)|, d[n];
            && |Serialized(d, n + 1)| == p + 8 + |e.code| <= |bs|
            && bs[p..p + 8] == Binary(|e.code|, 8) && bs[p + 8..p + 8 + |e.code|] == e.code
  {
    SerializedPrefix(d, n + 1, |d|);
    var bs, p, e := Serialized(d, |d|) + rest, |Serialized(d, n)|, d[n];
    var s := Serialized(d, n + 1);
    assert s <= bs && s == Serialized(d, n) + Binary(|e.code|, 8) + e.code;
    assert bs[p..p + 8] == s[p..p + 8] == Binary(|e.code|, 8);
    assert bs[p + 8..p + 8 + |e.code|] == s[p + 8..p + 8 + |e.code|] == e.code;
  }

  lemma {:induction false} ParseSerializedFirst(d: Dictionary, rest: bits, n: nat)
    requires WellFormed(d) && n <= 256
    ensures Parse(Serialized(d, 256) + rest, n) == Parsed(d[..n], |Serialized(d, n)|)
    ensures Enough(Serialized(d, 256) + rest, n)
  {
    hide Parse, Enough, EntryAt, LengthAt, Serialized;
    var bs := Serialized(d, 256) + rest;
    if n == 0 {
      ParseNothing(bs, d);
      assert d[..0] == [];
    } else {
      var e := d[n - 1];
      ParseSerializedFirst(d, rest, n - 1);
      SerializedEntry(d, rest, n - 1);
      EntryReadBack(bs, |Serialized(d, n - 1)|, e);
      ParseNext(bs, n - 1, e);
      assert d[..n - 1] + [e] == d[..n];
    }
  }

  /** Parsing a serialised table, whatever follows it, gives back the table. */
  lemma {:induction false} ParseSerialized(d: Dictionary, rest: bits)
    requires WellFormed(d)
    ensures Parse(Serialized(d, 256) + rest, 256).entries == d
    ensures Enough(Serialized(d, 256) + rest, 256)
  {
    ParseSerializedFirst(d, rest, 256);
    assert d[..256] == d;
  }

  /** The same through a file of bytes. */
  lemma {:induction false} ParseFile(d: Dictionary)
    requires WellFormed(d)
    ensures Parse(BitsOf(Pack(Serialized(d, 256))), 256).entries == d
    ensures Enough(BitsOf(Pack(Serialized(d, 256))), 256)
  {
    PackBits(Serialized(d, 256));
    ParseSerialized(d, Zeros(Pad(|Serialized(d, 256)|)));
  }

  // ---------- arithmetic of the length field ----------

  lemma {:induction false} ShlDouble(v: nat, k: nat)
    ensures Shl(2 * v, k) == 2 * Shl(v, k)
  {
    if k > 0 {
      ShlDouble(v, k - 1);
    }
  }

  lemma {:induction false} ShlAdd(v: nat, w: nat, k: nat)
    ensures Shl(v + w, k) == Shl(v, k) + Shl(w, k)
  {
    if k > 0 {
      ShlAdd(v, w, k - 1);
    }
  }

  /** Or-ing a digit into the place just below a shifted number appends the digit. */
  lemma {:induction false} OrAppendsDigit(v: nat, b: nat, k: nat)
    requires b <= 1
    ensures Or(Shl(v, k + 1), Shl(b, k)) == Shl(2 * v + b, k)
  {
    if k == 0 {
      assert Shl(v, 1) == 2 * v && Shl(b, 0) == b;
      OrWithZero(v);
    } else {
      assert Shl(v, k + 1) / 2 == Shl(v, k) && Shl(b, k) / 2 == Shl(b, k - 1);
      OrAppendsDigit(v, b, k - 1);
    }
  }

  lemma ValueAppend(bs: bits, b: bool)
    ensures BinaryValue(bs + [b]) == 2 * BinaryValue(bs) + if b then 1 else 0
  {
    assert (bs + [b])[..|bs|] == bs;
  }

  // ---------- create_map (compression.c) ----------

  /** C's `pow` on the two bases that occur. */
  function Pow(base: nat, power: nat): (r: nat) {
    if power == 0 then 1 else base * Pow(base, power - 1)
  }

  lemma {:induction false} PowOfTwo(power: nat)
    ensures Pow(2, power) == Shl(1, power)
    ensures Pow(0, power) == if power > 0 then 0 else 1
  {
    if power > 0 {
      PowOfTwo(power - 1);
    }
  }

  /** One digit of a length field, added as a power of two. */
  lemma {:induction false} LengthPower(f: bits, b: bool)
    requires |f| < 8
    ensures Shl(BinaryValue(f + [b]), 7 - |f|) == Shl(BinaryValue(f), 8 - |f|) + if b then Pow(2, 7 - |f|) else 0
    ensures Shl(BinaryValue(f + [b]), 7 - |f|) < 256
  {
    hide *;
    var v, k := BinaryValue(f), 7 - |f|;
    ShlSuccessor(v, k);
    ValueAppend(f, b);
    PowOfTwo(k);
    ShlAdd(2 * v, if b then 1 else 0, k);
    ShlZero(k);
    ShlLess(BinaryValue(f + [b]), |f| + 1, k);
    Pow2Of8();
  }

  lemma ShlSuccessor(v: nat, k: nat)
    ensures Shl(v, k + 1) == Shl(2 * v, k)
  {
    ShlDouble(v, k);
  }

  lemma {:induction false} ShlZero(k: nat)
    ensures Shl(0, k) == 0
  {
    if k > 0 {
      ShlZero(k - 1);
    }
  }

  /** The sum of powers over the eight digits is the number they stand for. */
  method LengthByPowers(len: bits) returns (size: byte)
    requires |len| == 8
    ensures size == BinaryValue(len)
  {
    hide Shl, Pow;
    size := 0;
    var power := 7;
    ShlZero(8);
    var i := 0;
    while i < 8
      invariant 0 <= i <= 8 && power == 7 - i
      invariant size == Shl(BinaryValue(len[..i]), 8 - i)
    {
      hide BinaryValue;
      var digit := if len[i] then 1 else 0;
      PowOfTwo(power);
      LengthPower(len[..i], len[i]);
      assert len[..i + 1] == len[..i] + [len[i]];
      if !(2 * digit == 0 && power == 0) {
        size := size + Pow(2 * digit, power);
      }
      power := power - 1;
      i := i + 1;
    }
    assert len[..8] == len;
    ShlByZero(BinaryValue(len));
  }

  lemma ShlByZero(v: nat)
    ensures Shl(v, 0) == v
  {
  }

  /** How many bits lie before the cursor (byte, bits left in it). */
  function Pos(currentByte: nat, bitsLeft: nat): (r: nat)
    requires bitsLeft <= 8
  {
    8 * currentByte + 8 - bitsLeft
  }

  /** Reads n bits at the cursor. */
  method ReadBits(buffer: seq<byte>, byte0: nat, bit0: nat, n: nat)
    returns (bs: bits, currentByte: nat, currByteBit: nat)
    requires 1 <= bit0 <= 8 && Pos(byte0, bit0) + n <= 8 * |buffer|
    ensures 1 <= currByteBit <= 8 && Pos(currentByte, currByteBit) == Pos(byte0, bit0) + n
    ensures bs == BitsOf(buffer)[Pos(byte0, bit0)..Pos(byte0, bit0) + n]
  {
    bs, currentByte, currByteBit := [], byte0, bit0;
    var i := 0;
    while i < n
      invariant 0 <= i <= n && 1 <= currByteBit <= 8 && Pos(currentByte, currByteBit) == Pos(byte0, bit0) + i
      invariant bs == BitsOf(buffer)[Pos(byte0, bit0)..Pos(byte0, bit0) + i]
    {
      BitIndex(buffer, currentByte, currByteBit - 1);
      bs := bs + [MaskedBit(buffer[currentByte], currByteBit - 1)];
      currByteBit := currByteBit - 1;
      if currByteBit == 0 {
        currByteBit := 8;
        currentByte := currentByte + 1;
      }
      i := i + 1;
    }
  }

  lemma {:induction false} EnoughBefore(bs: bits, m: nat, n: nat)
    requires m <= n <= 256 && Enough(bs, n)
    ensures Enough(bs, m)
  {
    hide Parse, LengthAt;
    if m < n {
      EnoughBefore(bs, m, n - 1);
    }
  }

  lemma WholeField(bs: bits, p: nat)
    requires p + 8 <= |bs|
    ensures LengthAt(bs, p) == BinaryValue(bs[p..p + 8])
  {
    ShlByZero(BinaryValue(bs[p..p + 8]));
  }

  /** A file with enough bits has the next entry's length field and code. */
  lemma {:induction false} NextEntry(bs: bits, n: nat) returns (p: nat, size: nat)
    requires n < 256 && Enough(bs, 256)
    ensures p == Parse(bs, n).pos && p + 8 + size <= |bs| && size == BinaryValue(bs[p..p + 8])
    ensures Parse(bs, n + 1) == Parsed(Parse(bs, n).entries + [Entry(n, size, bs[p + 8..p + 8 + size])], p + 8 + size)
  {
    hide *;
    EnoughBefore(bs, n, 256);
    EnoughBefore(bs, n + 1, 256);
    EnoughForNext(bs, n);
    p := Parse(bs, n).pos;
    size := LengthAt(bs, p);
    WholeField(bs, p);
    WholeEntry(bs, p, n);
    ParseNext(bs, n, EntryAt(bs, p, n));
  }

  lemma EnoughForNext(bs: bits, n: nat)
    requires n < 256 && Enough(bs, n + 1)
    ensures var p := Parse(bs, n).pos; p + 8 + LengthAt(bs, p) <= |bs|
  {
  }

  lemma WholeEntry(bs: bits, p: nat, b: byte)
    requires p + 8 + LengthAt(bs, p) <= |bs|
    ensures EntryAt(bs, p, b) == Entry(b, LengthAt(bs, p), bs[p + 8..p + 8 + LengthAt(bs, p)])
  {
    hide LengthAt;
  }

  method CreateMap(buffer: seq<byte>) returns (compressor: Dictionary)
    requires Enough(BitsOf(buffer), 256)
    ensures compressor == Parse(BitsOf(buffer), 256).entries && WellFormed(compressor)
  {
    hide Parse, Enough, BinaryValue;
    ghost var all := BitsOf(buffer);
    ParseNothing(all, []);
    compressor := [];
    var count, curr, currentByte, currByteBit := 0, 0, 0, 8;
    while count < 256
      invariant 0 <= count <= 256 && curr == count % 256
      invariant 1 <= currByteBit <= 8
      invariant Parse(all, count) == Parsed(compressor, Pos(currentByte, currByteBit))
    {
      ghost var p, length := NextEntry(all, count);
      var len, code;
      len, currentByte, currByteBit := ReadBits(buffer, currentByte, currByteBit, 8);
      var size := LengthByPowers(len);
      code, currentByte, currByteBit := ReadBits(buffer, currentByte, currByteBit, size);
      compressor := compressor + [Entry(curr, size, code)];
      count := count + 1;
      curr := (curr + 1) % 256;
    }
    ParsedWellFormed(all);
  }

  lemma ParsedWellFormed(bs: bits)
    requires Enough(bs, 256)
    ensures WellFormed(Parse(bs, 256).entries)
  {
    EnoughIsWellFormed(bs, 256);
  }

  // ---------- the parsers of compression_opt.c and decompressor.js ----------

  lemma AvailNext(bs: bits, p: nat, k: nat)
    ensures Avail(bs, p, k + 1) == Avail(bs, p, k) + if p + k < |bs| then [bs[p + k]] else []
    ensures |Avail(bs, p, k)| == if p + k <= |bs| then k else if p <= |bs| then |bs| - p else 0
  {
  }

  /** One digit of a length field, or-ed into its place; a missing one adds nothing. */
  lemma LengthDigit(bs: bits, p: nat, k: nat)
    requires k < 8
    ensures PartialLength(bs, p, k + 1) ==
            if p + k < |bs| then Or(PartialLength(bs, p, k), Shl(if bs[p + k] then 1 else 0, 7 - k))
            else PartialLength(bs, p, k)
  {
    hide BinaryValue, Shl, Or;
    AvailNext(bs, p, k);
    if p + k < |bs| {
      var f, b := Avail(bs, p, k), bs[p + k];
      assert |f| == k && Avail(bs, p, k + 1) == f + [b];
      OrAppendsDigit(BinaryValue(f), if b then 1 else 0, 7 - k);
      ValueAppend(f, b);
    } else {
      assert Avail(bs, p, k + 1) == Avail(bs, p, k);
    }
  }

  lemma NoLength(bs: bits, p: nat)
    ensures PartialLength(bs, p, 0) == 0 && PartialLength(bs, p, 8) == LengthAt(bs, p)
  {
    ShlZero(8);
    assert Avail(bs, p, 0) == [];
    assert BinaryValue(Avail(bs, p, 0)) == 0;
  }

  /** The cursor is inside the file exactly when it has a bit left to read. */
  lemma CursorInside(size: nat, currentByte: nat, bitsLeft: nat)
    requires 1 <= bitsLeft <= 8 && Pos(currentByte, bitsLeft) <= 8 * size
    ensures currentByte < size <==> Pos(currentByte, bitsLeft) < 8 * size
  {
  }

  /** Reads one bit by shifting, then masking, and moves the cursor. */
  method NextBit(buffer: seq<byte>, byte0: nat, bit0: nat) returns (bit: bool, currentByte: nat, currentBit: nat)
    requires 1 <= bit0 <= 8 && byte0 < |buffer|
    ensures 1 <= currentBit <= 8 && Pos(currentByte, currentBit) == Pos(byte0, bit0) + 1
    ensures bit == BitsOf(buffer)[Pos(byte0, bit0)]
  {
    BitIndex(buffer, byte0, bit0 - 1);
    bit, currentByte, currentBit := ShiftedBit(buffer[byte0], bit0 - 1), byte0, bit0 - 1;
    if currentBit == 0 {
      currentBit := 8;
      currentByte := currentByte + 1;
    }
  }
}
