/** compression_opt.c: the dictionary parser that also builds the trie, the encoder
    that keeps data raw when coding does not shrink it, and the trie decoder. */
module CompressionOpt {
  import opened Bits
  import opened Wrappers
  import opened PrefixCode
  import opened DictionaryFile
  import opened Trie

  // ---------- what the operations compute ----------

  /** Data that coding would not shrink stays raw; there is no pad count. */
  function OptCompressed(d: Dictionary, m: seq<byte>): (r: seq<byte>)
    requires |d| == 256
  {
    if |Pack(Encode(d, m))| < |m| then Pack(Encode(d, m)) else m
  }

  /** The encoder's result in full: the code bits, padded with zeros to whole bytes,
      when these are fewer than the message has, and otherwise the message. */
  lemma OptCompressedIs(d: Dictionary, m: seq<byte>)
    requires |d| == 256
    ensures var bs, back := Encode(d, m), OptCompressed(d, m);
            var n := (|bs| + 7) / 8;
            if n < |m| then |back| == n && BitsOf(back) == bs + Zeros(8 * n - |bs|) else back == m
  {
    hide Pack, Encode, BitsOf;
    PackBits(Encode(d, m));
  }

  /** The decoder reads every bit, the padding included, and leaves the data as it
      is when the walk meets a missing child. */
  ghost function OptDecompressed(d: Dictionary, data: seq<byte>): (r: seq<byte>) {
    match Walk(d, Some(START), BitsOf(data))
    case None => data
    case Some(s) => s.output
  }

  // ---------- the trie of a table ----------

  /** The tree stands for the first n entries of the table. */
  ghost predicate Represents(t: Tree, d: Dictionary, n: nat)
    requires n <= |d|
    reads t, t.nodes.Values
  {
    && (forall p :: p in t.nodes <==> OnPath(d, p, n))
    && (forall p :: t.LeafAt(p) == LastMatch(d, p, n))
  }

  /** In the trie of a prefix code the leaf of byte b is at b's code and nowhere
      else, and nothing hangs below a leaf. */
  lemma {:induction false} TrieOfPrefixCode(d: Dictionary, p: bits, b: byte)
    requires WellFormed(d) && PrefixFree(d)
    ensures LastMatch(d, p, 256) == Some(b) <==> p == d[b].code
    ensures LastMatch(d, p, 256).Some? ==> !OnPath(d, p + [false], 256) && !OnPath(d, p + [true], 256)
  {
    PrefixFreeIsDistinct(d);
    LastMatchNone(d, p, 256);
    if LastMatch(d, p, 256).Some? {
      var i := LastMatchSome(d, p, 256);
      forall j, c | 0 <= j < 256 ensures !(p + [c] <= d[j].code) {
        assert i == j || !Starts(d, i, j);
        ExtendsPrefix(p, c, d[j].code);
      }
    }
  }

  lemma ExtendsPrefix(p: bits, c: bool, q: bits)
    ensures p + [c] <= q ==> p <= q && p != q
  {
  }

  lemma OnPathNext(d: Dictionary, p: bits, n: nat)
    requires n < |d|
    ensures OnPath(d, p, n + 1) <==> OnPath(d, p, n) || p <= d[n].code
  {
    if OnPath(d, p, n + 1) && p != [] {
      var i :| 0 <= i < n + 1 && p <= d[i].code;
    }
  }

  class CompressionMap {
    var encodeTable: Dictionary
    const tree: Tree

    ghost predicate Valid()
      reads this, tree, tree.nodes.Values
    {
      WellFormed(encodeTable) && tree.Valid() && Represents(tree, encodeTable, 256)
    }

    /** The code bits of a cut-off last entry would be uninitialised memory, so every
        entry's code must be in the file in full. */
    constructor (buffer: seq<byte>)
      requires forall i :: 0 <= i < 256 ==> var e := Parse(BitsOf(buffer), 256).entries[i]; |e.code| == e.codeLength
      ensures Valid() && encodeTable == Parse(BitsOf(buffer), 256).entries
    {
      hide Parse, LengthAt, Avail, OnPath, LastMatch;
      var t := new Tree();
      var table: Dictionary := [];
      ghost var all := BitsOf(buffer);
      ParseNothing(all, []);
      EmptyTrie(t, table);
      var currentByte, currByteBit := 0, 8;
      for byteVal := 0 to 256
        invariant 1 <= currByteBit <= 8 && Pos(currentByte, currByteBit) <= 8 * |buffer|
        invariant Parse(all, byteVal) == Parsed(table, Pos(currentByte, currByteBit))
        invariant t.Valid() && fresh(t) && fresh(t.nodes.Values) && Represents(t, table, byteVal)
      {
        var codeLength, code;
        codeLength, currentByte, currByteBit := ReadLength(buffer, currentByte, currByteBit);
        code, currentByte, currByteBit := ReadCode(buffer, currentByte, currByteBit, codeLength);
        ParseStep(all, byteVal, codeLength, code);
        ghost var before := table;
        table := table + [Entry(byteVal, codeLength, code)];
        assert table[..byteVal] == before;
        InsertEntry(t, table);
      }
      tree := t;
      encodeTable := table;
      TableWellFormed(all);
    }
  }

  /** What a loaded map is: the trie's nodes are the prefixes of codes, and the leaf
      at a path holds the byte of the last entry with that code. */
  lemma LoadedTrie(m: CompressionMap, p: bits)
    requires m.Valid()
    ensures var d := m.encodeTable;
            && |d| == 256
            && (p in m.tree.nodes <==> p == [] || exists i :: 0 <= i < 256 && p <= d[i].code)
            && (m.tree.LeafAt(p) == None <==> forall i :: 0 <= i < 256 ==> d[i].code != p)
            && (forall i: byte :: d[i].code == p && (forall j :: i < j < 256 ==> d[j].code != p) ==>
                 m.tree.LeafAt(p) == Some(i))
  {
    var d := m.encodeTable;
    LastMatchNone(d, p, 256);
    if LastMatch(d, p, 256).Some? {
      var k := LastMatchSome(d, p, 256);
      forall i: byte | d[i].code == p && (forall j :: i < j < 256 ==> d[j].code != p)
        ensures m.tree.LeafAt(p) == Some(i)
      {
        assert k == i;
      }
    }
  }

  lemma EmptyTrie(t: Tree, d: Dictionary)
    requires t.Valid() && t.nodes.Keys == {[]} && t.LeafAt([]) == None
    ensures Represents(t, d, 0)
  {
  }

  method InsertEntry(tree: Tree, table: Dictionary)
    requires |table| > 0 && tree.Valid() && Represents(tree, table[..|table| - 1], |table| - 1)
    modifies tree`nodes, tree.nodes.Values
    ensures tree.Valid() && fresh(tree.nodes.Values - old(tree.nodes.Values))
    ensures Represents(tree, table, |table|)
  {
    var n := |table| - 1;
    tree.Insert(table[n].code, table[n].byte);
    forall p ensures OnPath(table, p, n + 1) <==> OnPath(table[..n], p, n) || p <= table[n].code {
      OnPathNext(table, p, n);
      OnPathTake(table, p, n);
    }
    forall p ensures LastMatch(table, p, n) == LastMatch(table[..n], p, n) {
      LastMatchTake(table, p, n, n);
    }
  }

  lemma OnPathTake(d: Dictionary, p: bits, n: nat)
    requires n <= |d|
    ensures OnPath(d[..n], p, n) <==> OnPath(d, p, n)
  {
    if OnPath(d, p, n) && p != [] {
      var i :| 0 <= i < n && p <= d[i].code;
      assert p <= d[..n][i].code;
    }
  }

  lemma {:induction false} LastMatchTake(d: Dictionary, p: bits, n: nat, k: nat)
    requires k <= n <= |d|
    ensures LastMatch(d, p, k) == LastMatch(d[..n], p, k)
  {
    if k > 0 {
      LastMatchTake(d, p, n, k - 1);
    }
  }

  lemma {:induction false} ParsedEntries(bs: bits, n: nat)
    requires n <= 256
    ensures forall i :: 0 <= i < n ==> Parse(bs, n).entries[i].byte == i && Parse(bs, n).entries[i].codeLength < 256
  {
    if n > 0 {
      ParsedEntries(bs, n - 1);
      LengthBound(bs, Parse(bs, n - 1).pos);
    }
  }

  lemma TableWellFormed(bs: bits)
    requires forall i :: 0 <= i < 256 ==> var e := Parse(bs, 256).entries[i]; |e.code| == e.codeLength
    ensures WellFormed(Parse(bs, 256).entries)
  {
    ParsedEntries(bs, 256);
  }

  // ---------- its parser ----------

  /** Reads up to eight length digits, leaving the loop at the end of the file. */
  method ReadLength(buffer: seq<byte>, byte0: nat, bit0: nat)
    returns (codeLength: nat, currentByte: nat, currByteBit: nat)
    requires 1 <= bit0 <= 8 && Pos(byte0, bit0) <= 8 * |buffer|
    ensures codeLength == LengthAt(BitsOf(buffer), Pos(byte0, bit0)) && 1 <= currByteBit <= 8
    ensures var p := Pos(byte0, bit0);
            Pos(currentByte, currByteBit) == p + |Avail(BitsOf(buffer), p, 8)| <= 8 * |buffer|
  {
    hide *;
    ghost var all, p := BitsOf(buffer), Pos(byte0, bit0);
    codeLength, currentByte, currByteBit := 0, byte0, bit0;
    NoLength(all, p);
    var i := 7;
    while i >= 0
      invariant -1 <= i <= 7 && 1 <= currByteBit <= 8
      invariant Pos(currentByte, currByteBit) == p + |Avail(all, p, 7 - i)| <= |all|
      invariant codeLength == PartialLength(all, p, 7 - i)
    {
      ghost var k := 7 - i;
      AvailNext(all, p, k);
      CursorInside(|buffer|, currentByte, currByteBit);
      if currentByte >= |buffer| {
        NoMoreBits(all, p, k, 8);
        break;
      }
      LengthDigit(all, p, k);
      var bit;
      bit, currentByte, currByteBit := NextBit(buffer, currentByte, currByteBit);
      codeLength := Or(codeLength, Shl(if bit then 1 else 0, i));
      i := i - 1;
    }
  }

  /** Once the file has ended, asking for more digits changes nothing. */
  lemma NoMoreBits(bs: bits, p: nat, k: nat, n: nat)
    requires k <= n && p + |Avail(bs, p, k)| == |bs| && |Avail(bs, p, k)| <= k
    ensures Avail(bs, p, n) == Avail(bs, p, k)
    ensures n <= 8 ==> PartialLength(bs, p, n) == PartialLength(bs, p, k)
  {
    hide Shl, BinaryValue;
    assert Avail(bs, p, n) == Avail(bs, p, k);
  }

  method ReadCode(buffer: seq<byte>, byte0: nat, bit0: nat, codeLength: nat)
    returns (code: bits, currentByte: nat, currByteBit: nat)
    requires 1 <= bit0 <= 8 && Pos(byte0, bit0) <= 8 * |buffer|
    ensures code == Avail(BitsOf(buffer), Pos(byte0, bit0), codeLength)
    ensures 1 <= currByteBit <= 8 && Pos(currentByte, currByteBit) == Pos(byte0, bit0) + |code| <= 8 * |buffer|
  {
    hide *;
    ghost var all, p := BitsOf(buffer), Pos(byte0, bit0);
    assert Avail(all, p, 0) == [];
    code, currentByte, currByteBit := [], byte0, bit0;
    var i := 0;
    while i < codeLength
      invariant 0 <= i <= codeLength && 1 <= currByteBit <= 8
      invariant code == Avail(all, p, i) && Pos(currentByte, currByteBit) == p + |code| <= |all|
    {
      AvailNext(all, p, i);
      CursorInside(|buffer|, currentByte, currByteBit);
      if currentByte >= |buffer| {
        NoMoreBits(all, p, i, codeLength);
        break;
      }
      var bit;
      bit, currentByte, currByteBit := NextBit(buffer, currentByte, currByteBit);
      code := code + [bit];
      i := i + 1;
    }
  }

  // ---------- compress_optimized ----------

  /** The zeroed buffer with the bits bs or-ed in from the front. */
  ghost predicate OredIn(buf: seq<byte>, bs: bits) {
    |bs| <= 8 * |buf| && forall k: nat | k < 8 * |buf| :: BitAt(buf, k) == (k < |bs| && bs[k])
  }

  lemma OrOneBit(buf: seq<byte>, bs: bits, b: bool, buf': seq<byte>)
    requires OredIn(buf, bs) && |bs| < 8 * |buf|
    requires buf' == if b then buf[|bs| / 8 := SetBit(buf[|bs| / 8], 7 - |bs| % 8)] else buf
    ensures OredIn(buf', bs + [b])
  {
    forall k: nat | k < 8 * |buf| ensures BitAt(buf', k) == (k < |bs| + 1 && (bs + [b])[k]) {
      assert BitAt(buf, k) == (k < |bs| && bs[k]);
      if k / 8 == |bs| / 8 {
        WriteBit(buf[k / 8], 7 - |bs| % 8, 7 - k % 8);
        assert 7 - |bs| % 8 == 7 - k % 8 <==> k == |bs|;
      }
    }
  }

  lemma ZeroBuffer(buf: seq<byte>)
    requires forall i :: 0 <= i < |buf| ==> buf[i] == 0
    ensures OredIn(buf, [])
  {
    forall k: nat | k < 8 * |buf| ensures !BitAt(buf, k) {
      BitOfZero(7 - k % 8);
    }
  }

  /** The bytes up to the last code bit are the packing of the bits. */
  lemma PackedPrefix(buf: seq<byte>, bs: bits)
    requires OredIn(buf, bs)
    ensures (|bs| + 7) / 8 <= |buf| && buf[..(|bs| + 7) / 8] == Pack(bs)
  {
    var part := buf[..(|bs| + 7) / 8];
    forall i: nat | i < 8 * |part| ensures BitAt(part, i) == (i < |bs| && bs[i]) {
      assert BitAt(buf, i) == BitAt(part, i);
    }
    PackUnique(part, bs);
  }

  /** Writes one code at the cursor. */
  method WriteCode(compressed: array<byte>, byteIndex0: nat, bitIndex0: int, e: Entry, ghost bs: bits)
    returns (byteIndex: nat, bitIndex: int)
    requires OredIn(compressed[..], bs) && |bs| + |e.code| <= 8 * compressed.Length && e.codeLength == |e.code|
    requires byteIndex0 == |bs| / 8 && bitIndex0 == 7 - |bs| % 8
    modifies compressed
    ensures OredIn(compressed[..], bs + e.code)
    ensures byteIndex == |bs + e.code| / 8 && bitIndex == 7 - |bs + e.code| % 8
  {
    hide OredIn, SetBit;
    byteIndex, bitIndex := byteIndex0, bitIndex0;
    assert bs + e.code[..0] == bs;
    var j := 0;
    while j < e.codeLength
      invariant 0 <= j <= e.codeLength
      invariant OredIn(compressed[..], bs + e.code[..j])
      invariant byteIndex == (|bs| + j) / 8 && bitIndex == 7 - (|bs| + j) % 8
    {
      ghost var before := compressed[..];
      if e.code[j] {
        compressed[byteIndex] := SetBit(compressed[byteIndex], bitIndex);
      }
      OrOneBit(before, bs + e.code[..j], e.code[j], compressed[..]);
      assert bs + e.code[..j] + [e.code[j]] == bs + e.code[..j + 1];
      bitIndex := bitIndex - 1;
      if bitIndex < 0 {
        bitIndex := 7;
        byteIndex := byteIndex + 1;
      }
      j := j + 1;
    }
    assert e.code[..j] == e.code;
  }

  /** The buffer of eight bytes for each input byte must hold the code bits. */
  method CompressOptimized(data: seq<byte>, map_: CompressionMap) returns (r: seq<byte>)
    requires map_.Valid() && |Encode(map_.encodeTable, data)| <= 64 * |data|
    ensures r == OptCompressed(map_.encodeTable, data)
  {
    if |data| == 0 {
      return data;
    }
    hide Encode, OredIn;
    var compressed := new byte[|data| * 8](_ => 0);
    var compressedBits, byteIndex, bitIndex := 0, 0, 7;
    ghost var d, bs := map_.encodeTable, [];
    ZeroBuffer(compressed[..]);
    EncodeNothing(d);
    assert data[..0] == [];
    for i := 0 to |data|
      invariant bs == Encode(d, data[..i]) && OredIn(compressed[..], bs)
      invariant compressedBits == |bs| && byteIndex == |bs| / 8 && bitIndex == 7 - |bs| % 8
    {
      var e := map_.encodeTable[data[i]];
      EncodeNext(d, data, i);
      byteIndex, bitIndex := WriteCode(compressed, byteIndex, bitIndex, e, bs);
      bs := bs + e.code;
      compressedBits := compressedBits + e.codeLength;
    }
    assert data[..|data|] == data;
    var compressedBytes := (compressedBits + 7) / 8;
    PackedPrefix(compressed[..], bs);
    if compressedBytes < |data| {
      r := compressed[..compressedBytes];
    } else {
      r := data;
    }
  }

  /** Codes of at most 64 bits always fit the buffer. */
  lemma {:induction false} FitsBuffer(d: Dictionary, m: seq<byte>)
    requires WellFormed(d) && forall i :: 0 <= i < 256 ==> |d[i].code| <= 64
    ensures |Encode(d, m)| <= 64 * |m|
  {
    if m != [] {
      FitsBuffer(d, m[..|m| - 1]);
    }
  }

  // ---------- decompress_optimized ----------

  /** Stores a byte, doubling the capacity when the buffer is full. */
  method Push(buf0: array<byte>, size: nat, b: byte) returns (buf: array<byte>)
    requires size <= buf0.Length && buf0.Length > 0
    modifies buf0
    ensures buf == buf0 || fresh(buf)
    ensures size + 1 <= buf.Length && buf[..size + 1] == old(buf0[..size]) + [b]
  {
    buf := buf0;
    if size >= buf.Length {
      var larger := new byte[2 * buf.Length];
      forall i | 0 <= i < size {
        larger[i] := buf[i];
      }
      buf := larger;
    }
    buf[size] := b;
  }

  ghost function WalkFirst(d: Dictionary, data: seq<byte>, n: nat): (r: Option<Scanner>)
    requires n <= 8 * |data|
  {
    Walk(d, Some(START), BitsOf(data)[..n])
  }

  lemma WalkNothing(d: Dictionary, data: seq<byte>)
    ensures WalkFirst(d, data, 0) == Some(START)
  {
  }

  lemma WalkNextBit(d: Dictionary, data: seq<byte>, i: nat, k: nat)
    requires i < |data| && k < 8
    ensures WalkFirst(d, data, 8 * i + 8 - k) == Descend(d, WalkFirst(d, data, 8 * i + 7 - k), Bit(data[i], k))
  {
    var n := 8 * i + 7 - k;
    BitIndex(data, i, k);
    WalkSnoc(d, Some(START), BitsOf(data)[..n], BitsOf(data)[n]);
    assert BitsOf(data)[..n + 1] == BitsOf(data)[..n] + [BitsOf(data)[n]];
  }

  lemma {:induction false} WalkStaysLost(d: Dictionary, bs: bits)
    ensures Walk(d, None, bs) == None
  {
    if bs != [] {
      WalkStaysLost(d, bs[..|bs| - 1]);
    }
  }

  lemma WalkLost(d: Dictionary, data: seq<byte>, n: nat)
    requires n <= 8 * |data| && WalkFirst(d, data, n) == None
    ensures OptDecompressed(d, data) == data
  {
    var all := BitsOf(data);
    assert all == all[..n] + all[n..];
    WalkAppend(d, Some(START), all[..n], all[n..]);
    WalkStaysLost(d, all[n..]);
  }

  lemma WalkDone(d: Dictionary, data: seq<byte>, s: Scanner)
    requires WalkFirst(d, data, 8 * |data|) == Some(s)
    ensures OptDecompressed(d, data) == s.output
  {
    assert BitsOf(data)[..8 * |data|] == BitsOf(data);
  }

  method DecompressOptimized(data: seq<byte>, map_: CompressionMap) returns (r: seq<byte>)
    requires map_.Valid()
    ensures r == OptDecompressed(map_.encodeTable, data)
  {
    hide WalkFirst, Walk, OptDecompressed, BitsOf, LastMatch, OnPath;
    ghost var d := map_.encodeTable;
    WalkNothing(d, data);
    if |data| == 0 {
      WalkDone(d, data, START);
      return data;
    }
    var decompressed := new byte[|data| * 2];
    var size := 0;
    var current: TrieNode := map_.tree.root;
    assert map_.tree.NodeValid([]);
    for byteIdx := 0 to |data|
      invariant map_.Valid() && map_.encodeTable == d
      invariant fresh(decompressed) && 0 < decompressed.Length && size <= decompressed.Length
      invariant current.path in map_.tree.nodes && map_.tree.nodes[current.path] == current
      invariant WalkFirst(d, data, 8 * byteIdx) == Some(Scanner(decompressed[..size], current.path))
    {
      var bitIdx := 7;
      while bitIdx >= 0
        invariant -1 <= bitIdx <= 7
        invariant map_.Valid() && map_.encodeTable == d
        invariant fresh(decompressed) && 0 < decompressed.Length && size <= decompressed.Length
        invariant current.path in map_.tree.nodes && map_.tree.nodes[current.path] == current
        invariant WalkFirst(d, data, 8 * byteIdx + 7 - bitIdx) == Some(Scanner(decompressed[..size], current.path))
      {
        var bit := ShiftedBit(data[byteIdx], bitIdx);
        WalkNextBit(d, data, byteIdx, bitIdx);
        ghost var p := current.path;
        assert map_.tree.NodeValid(p);
        var child := current.Child(bit);
        if child == null {
          WalkLost(d, data, 8 * byteIdx + 8 - bitIdx);
          return data;
        }
        current := child;
        assert map_.tree.NodeValid(p + [bit]);
        assert map_.tree.LeafAt(p + [bit]) == LastMatch(d, p + [bit], 256);
        if current.isLeaf {
          decompressed := Push(decompressed, size, current.byte);
          size := size + 1;
          current := map_.tree.root;
          assert map_.tree.NodeValid([]);
        }
        bitIdx := bitIdx - 1;
      }
    }
    WalkDone(d, data, Scanner(decompressed[..size], current.path));
    r := decompressed[..size];
  }
}
