/** frontend/decompressor.js: the proxy's own dictionary loader and decoder. */
module JsDecompressor {
  import opened Bits
  import opened Wrappers
  import opened PrefixCode
  import opened Compression
  import opened DictionaryFile

  // ---------- what the decoder returns ----------

  /** Without a dictionary the data comes back as it is; a frame that claims no
      bits decodes to nothing. */
  function JsDecompressed(dictionary: Option<Dictionary>, data: seq<byte>): (r: seq<byte>) {
    match dictionary
    case None => data
    case Some(d) =>
      if data == [] || TotalBits(data) <= 0 then []
      else ScanFirst(d, data, TotalBits(data)).output
  }

  /** What is decoded, in full. */
  lemma JsDecompressedIs(dictionary: Option<Dictionary>, data: seq<byte>)
    ensures dictionary.None? ==> JsDecompressed(dictionary, data) == data
    ensures dictionary.Some? && data == [] ==> JsDecompressed(dictionary, data) == []
    ensures dictionary.Some? && data != [] ==>
              var n := 8 * (|data| - 1) - data[|data| - 1];
              JsDecompressed(dictionary, data) ==
              if n <= 0 then [] else Scan(dictionary.value, START, BitsOf(data)[..n]).output
  {
  }

  /** The two decoders agree exactly on the frames that claim at least one bit. */
  lemma {:induction false} AgreesWithC(d: Dictionary, frame: seq<byte>)
    requires WellFormed(d) && frame != []
    ensures JsDecompressed(Some(d), frame) == Decompressed(d, frame) <==> TotalBits(frame) > 0
  {
  }

  /** The proxy decodes every message of a prefix code, the empty one included. */
  lemma {:induction false} InvertsCompress(d: Dictionary, m: seq<byte>)
    requires WellFormed(d) && PrefixFree(d) && NonemptyCodes(d)
    ensures JsDecompressed(Some(d), Compressed(d, m)) == m
  {
    FrameBits(Encode(d, m));
    ScanEncode(d, m);
    assert Compressed(d, m) != [];
  }

  // ---------- the class ----------

  class Decompressor {
    var dictionary: Option<Dictionary>

    /** No stored code is longer than its stated length. */
    ghost predicate Valid()
      reads this
    {
      dictionary.Some? ==>
        && |dictionary.value| == 256
        && forall i :: 0 <= i < 256 ==> |dictionary.value[i].code| <= dictionary.value[i].codeLength
    }

    /** `file` is None when the dictionary cannot be read. */
    constructor (file: Option<seq<byte>>)
      ensures Valid()
      ensures dictionary == if file.None? then None else Some(Parse(BitsOf(file.value), 256).entries)
    {
      dictionary := None;
      new;
      if file.Some? {
        var d := LoadDictionary(file.value);
        dictionary := Some(d);
      }
    }

    method Decompress(compressedData: seq<byte>) returns (r: seq<byte>)
      requires Valid()
      ensures r == JsDecompressed(dictionary, compressedData)
      ensures dictionary.None? ==> r == compressedData
      ensures dictionary.Some? ==>
                if compressedData == [] then r == []
                else
                  var n := 8 * (|compressedData| - 1) - compressedData[|compressedData| - 1];
                  r == if n <= 0 then [] else Scan(dictionary.value, START, BitsOf(compressedData)[..n]).output
    {
      hide Scan, ScanFirst, BitsOf, FirstMatch;
      JsDecompressedIs(dictionary, compressedData);
      if dictionary.None? {
        return compressedData;
      }
      if |compressedData| == 0 {
        return [];
      }
      var d := dictionary.value;
      var paddingBits := compressedData[|compressedData| - 1];
      var totalBits := (|compressedData| - 1) * 8 - paddingBits;
      var decompressed: seq<byte> := [];
      var currentCode: bits := [];
      var bitsProcessed := 0;
      ScanNothing(d, compressedData);
      for byteIdx := 0 to |compressedData| - 1
        invariant bitsProcessed ==
                  if totalBits <= 0 then 0 else if 8 * byteIdx < totalBits then 8 * byteIdx else totalBits
        invariant ScanFirst(d, compressedData, bitsProcessed) == Scanner(decompressed, currentCode)
      {
        var bitIdx := 7;
        while bitIdx >= 0
          invariant -1 <= bitIdx <= 7
          invariant bitsProcessed <= 8 * byteIdx + 7 - bitIdx
          invariant bitsProcessed < 8 * byteIdx + 7 - bitIdx ==> bitsProcessed >= totalBits
          invariant if totalBits <= 0 then bitsProcessed == 0 else bitsProcessed <= totalBits
          invariant bitsProcessed < 8 * byteIdx ==> totalBits < 8 * byteIdx
          invariant ScanFirst(d, compressedData, bitsProcessed) == Scanner(decompressed, currentCode)
        {
          if bitsProcessed >= totalBits {
            break;
          }
          var bit := ShiftedBit(compressedData[byteIdx], bitIdx);
          ScanNextBit(d, compressedData, byteIdx, bitIdx, Scanner(decompressed, currentCode));
          currentCode := currentCode + [bit];
          bitsProcessed := bitsProcessed + 1;
          var found := FindEntry(d, currentCode);
          if found.Some? {
            decompressed := decompressed + [found.value];
            currentCode := [];
          }
          bitIdx := bitIdx - 1;
        }
      }
      return decompressed;
    }
  }

  /** The loop over the dictionary, with the element-by-element comparison. */
  method FindEntry(d: Dictionary, currentCode: bits) returns (found: Option<byte>)
    requires forall i :: 0 <= i < |d| ==> |d[i].code| <= d[i].codeLength
    ensures found == FirstMatch(d, currentCode, 0)
  {
    for q := 0 to |d|
      invariant FirstMatch(d, currentCode, q) == FirstMatch(d, currentCode, 0)
    {
      var entry := d[q];
      if entry.codeLength == |currentCode| {
        var matches := true;
        var i := 0;
        while i < entry.codeLength
          invariant 0 <= i <= entry.codeLength && matches
          invariant i <= |entry.code| && entry.code[..i] == currentCode[..i]
        {
          if i >= |entry.code| || entry.code[i] != currentCode[i] {
            matches := false;
            break;
          }
          i := i + 1;
        }
        assert matches <==> entry.code == currentCode by {
          if matches {
            assert entry.code == entry.code[..i] && currentCode == currentCode[..i];
          }
        }
        if matches {
          return Some(entry.byte);
        }
      }
    }
    return None;
  }

  // ---------- the loader ----------

  /** Reads up to eight length digits, or-ing each one into its place. */
  method ReadLength(buffer: seq<byte>, byte0: nat, bit0: nat)
    returns (codeLength: nat, currentByte: nat, currentBit: nat)
    requires 1 <= bit0 <= 8 && Pos(byte0, bit0) <= 8 * |buffer|
    ensures codeLength == LengthAt(BitsOf(buffer), Pos(byte0, bit0)) && 1 <= currentBit <= 8
    ensures var p := Pos(byte0, bit0);
            Pos(currentByte, currentBit) == p + |Avail(BitsOf(buffer), p, 8)| <= 8 * |buffer|
  {
    hide *;
    ghost var all, p := BitsOf(buffer), Pos(byte0, bit0);
    NoLength(all, p);
    codeLength, currentByte, currentBit := 0, byte0, bit0;
    var j := 7;
    while j >= 0
      invariant -1 <= j <= 7 && 1 <= currentBit <= 8
      invariant Pos(currentByte, currentBit) == p + |Avail(all, p, 7 - j)| <= |all|
      invariant codeLength == PartialLength(all, p, 7 - j)
    {
      ghost var k := 7 - j;
      AvailNext(all, p, k);
      LengthDigit(all, p, k);
      CursorInside(|buffer|, currentByte, currentBit);
      if currentByte < |buffer| {
        var bit;
        bit, currentByte, currentBit := NextBit(buffer, currentByte, currentBit);
        codeLength := Or(codeLength, Shl(if bit then 1 else 0, j));
      }
      j := j - 1;
    }
  }

  method ReadCode(buffer: seq<byte>, byte0: nat, bit0: nat, codeLength: nat)
    returns (code: bits, currentByte: nat, currentBit: nat)
    requires 1 <= bit0 <= 8 && Pos(byte0, bit0) <= 8 * |buffer|
    ensures code == Avail(BitsOf(buffer), Pos(byte0, bit0), codeLength)
    ensures 1 <= currentBit <= 8 && Pos(currentByte, currentBit) == Pos(byte0, bit0) + |code| <= 8 * |buffer|
  {
    hide *;
    ghost var all, p := BitsOf(buffer), Pos(byte0, bit0);
    assert Avail(all, p, 0) == [];
    code, currentByte, currentBit := [], byte0, bit0;
    for j := 0 to codeLength
      invariant 1 <= currentBit <= 8
      invariant code == Avail(all, p, j) && Pos(currentByte, currentBit) == p + |code| <= |all|
    {
      AvailNext(all, p, j);
      CursorInside(|buffer|, currentByte, currentBit);
      if currentByte < |buffer| {
        var bit;
        bit, currentByte, currentBit := NextBit(buffer, currentByte, currentBit);
        code := code + [bit];
      }
    }
  }

  method LoadDictionary(buffer: seq<byte>) returns (dictionary: Dictionary)
    ensures dictionary == Parse(BitsOf(buffer), 256).entries && |dictionary| == 256
    ensures forall i :: 0 <= i < 256 ==> |dictionary[i].code| <= dictionary[i].codeLength
  {
    hide Parse, LengthAt, Avail;
    ParseNothing(BitsOf(buffer), []);
    dictionary := [];
    var currentByte, currentBit := 0, 8;
    for i := 0 to 256
      invariant 1 <= currentBit <= 8 && Pos(currentByte, currentBit) <= 8 * |buffer|
      invariant Parse(BitsOf(buffer), i) == Parsed(dictionary, Pos(currentByte, currentBit))
      invariant forall k :: 0 <= k < i ==> |dictionary[k].code| <= dictionary[k].codeLength
    {
      var codeLength, code;
      codeLength, currentByte, currentBit := ReadLength(buffer, currentByte, currentBit);
      code, currentByte, currentBit := ReadCode(buffer, currentByte, currentBit, codeLength);
      ParseStep(BitsOf(buffer), i, codeLength, code);
      dictionary := dictionary + [Entry(i, codeLength, code)];
    }
  }
}
