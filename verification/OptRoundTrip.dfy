/** When the trie decoder undoes the lookup encoder. The encoder stores no pad
    count, so the decoder also decodes the zero padding of the last byte. */
module OptRoundTrip {
  import opened Bits
  import opened Wrappers
  import opened PrefixCode
  import opened Trie
  import opened CompressionOpt

  // ---------- the walk over an encoded message ----------

  lemma {:induction false} WalkOneCode(d: Dictionary, out: seq<byte>, b: byte)
    requires WellFormed(d) && PrefixFree(d) && NonemptyCodes(d)
    ensures Walk(d, Some(Scanner(out, [])), CodeOf(d, b)) == Some(Scanner(out + [b], []))
  {
    var c, s := CodeOf(d, b), Scanner(out, []);
    PrefixFreeIsDistinct(d);
    forall n | 0 <= n <= |c| ensures OnPath(d, Scan(d, s, c[..n]).pending, 256) {
      if n < |c| {
        InsideCode(d, s, b, n);
      } else {
        assert c[..n] == c;
        ScanOneCode(d, out, b);
      }
    }
    WalkSurvives(d, s, c);
    WalkRefinesScan(d, s, c);
    ScanOneCode(d, out, b);
  }

  lemma InsideCode(d: Dictionary, s: Scanner, b: byte, n: nat)
    requires WellFormed(d) && PrefixFree(d) && s.pending == [] && n < |CodeOf(d, b)|
    ensures OnPath(d, Scan(d, s, CodeOf(d, b)[..n]).pending, 256)
  {
    var c := CodeOf(d, b)[..n];
    forall k | 1 <= k <= n ensures FirstMatch(d, s.pending + c[..k], 0) == None {
      NoMatchInsideCode(d, b, k);
      assert s.pending + c[..k] == CodeOf(d, b)[..k];
    }
    ScanCollects(d, s, c);
    assert s.pending + c == c && c <= d[b].code;
  }

  lemma {:induction false} WalkEncode(d: Dictionary, m: seq<byte>)
    requires WellFormed(d) && PrefixFree(d) && NonemptyCodes(d)
    ensures Walk(d, Some(START), Encode(d, m)) == Some(Scanner(m, []))
  {
    if m != [] {
      var init, b := m[..|m| - 1], m[|m| - 1];
      assert m == init + [b];
      calc {
        Walk(d, Some(START), Encode(d, m));
        { EncodeSnoc(d, init, b); }
        Walk(d, Some(START), Encode(d, init) + CodeOf(d, b));
        { WalkAppend(d, Some(START), Encode(d, init), CodeOf(d, b)); }
        Walk(d, Walk(d, Some(START), Encode(d, init)), CodeOf(d, b));
        { WalkEncode(d, init); }
        Walk(d, Some(Scanner(init, [])), CodeOf(d, b));
        { WalkOneCode(d, init, b); }
        Some(Scanner(m, []));
      }
    }
  }

  // ---------- the walk over the padding ----------

  /** p zeros are the beginning of a longer code. */
  ghost predicate ZerosPending(d: Dictionary, p: nat) {
    exists i :: 0 <= i < |d| && Zeros(p) <= d[i].code && p < |d[i].code|
  }

  lemma ZerosSnoc(p: nat)
    ensures Zeros(p + 1) == Zeros(p) + [false]
    ensures Zeros(p) <= Zeros(p + 1)
  {
  }

  lemma ZerosPendingLess(d: Dictionary, p: nat)
    requires ZerosPending(d, p + 1)
    ensures ZerosPending(d, p)
  {
    var i :| 0 <= i < |d| && Zeros(p + 1) <= d[i].code && p + 1 < |d[i].code|;
    ZerosSnoc(p);
    assert Zeros(p) <= d[i].code;
  }

  /** One more zero keeps the walk pending, completes the all-zero code, or leaves
      the trie. */
  lemma DescendZero(d: Dictionary, m: seq<byte>, p: nat)
    requires WellFormed(d) && PrefixFree(d)
    ensures var w := Descend(d, Some(Scanner(m, Zeros(p))), false);
            if ZerosPending(d, p + 1) then w == Some(Scanner(m, Zeros(p + 1)))
            else w == None || exists z: byte :: d[z].code == Zeros(p + 1) && w == Some(Scanner(m + [z], []))
  {
    var q := Zeros(p + 1);
    ZerosSnoc(p);
    LastMatchNone(d, q, 256);
    if ZerosPending(d, p + 1) {
      var i :| 0 <= i < |d| && q <= d[i].code && p + 1 < |d[i].code|;
      forall j | 0 <= j < 256 ensures d[j].code != q {
        assert i == j || !Starts(d, j, i);
      }
      assert OnPath(d, q, 256);
    } else if OnPath(d, q, 256) {
      var i :| 0 <= i < 256 && q <= d[i].code;
      assert d[i].code == q;
      var z := LastMatchSome(d, q, 256);
      assert d[z].byte == z;
    }
  }

  lemma {:induction false} CleanTail(d: Dictionary, m: seq<byte>, p: nat)
    requires WellFormed(d) && PrefixFree(d) && (p == 0 || ZerosPending(d, p))
    ensures Walk(d, Some(Scanner(m, [])), Zeros(p)) == Some(Scanner(m, Zeros(p)))
  {
    if p > 0 {
      if p > 1 {
        ZerosPendingLess(d, p - 1);
      }
      CleanTail(d, m, p - 1);
      ZerosSnoc(p - 1);
      WalkSnoc(d, Some(Scanner(m, [])), Zeros(p - 1), false);
      DescendZero(d, m, p - 1);
    }
  }

  lemma {:induction false} DirtyTail(d: Dictionary, m: seq<byte>, p: nat)
    requires WellFormed(d) && PrefixFree(d) && p > 0 && !ZerosPending(d, p)
    ensures var w := Walk(d, Some(Scanner(m, [])), Zeros(p)); w == None || |w.value.output| > |m|
  {
    ZerosSnoc(p - 1);
    WalkSnoc(d, Some(Scanner(m, [])), Zeros(p - 1), false);
    if p == 1 || ZerosPending(d, p - 1) {
      CleanTail(d, m, p - 1);
      DescendZero(d, m, p - 1);
    } else {
      DirtyTail(d, m, p - 1);
    }
  }

  lemma {:induction false} DecodedFrame(d: Dictionary, m: seq<byte>)
    requires WellFormed(d) && PrefixFree(d) && NonemptyCodes(d) && |Pack(Encode(d, m))| < |m|
    ensures OptDecompressed(d, OptCompressed(d, m)) ==
            match Walk(d, Some(Scanner(m, [])), Zeros(Pad(|Encode(d, m)|)))
            case None => Pack(Encode(d, m))
            case Some(s) => s.output
  {
    var bs := Encode(d, m);
    PackBits(bs);
    WalkAppend(d, Some(START), bs, Zeros(Pad(|bs|)));
    WalkEncode(d, m);
  }

  /** A message that coding shrinks comes back when there is no padding, or the
      padding is the beginning of some longer code, and in no other case. */
  lemma {:induction false} ShrunkRoundTripIff(d: Dictionary, m: seq<byte>)
    requires WellFormed(d) && PrefixFree(d) && NonemptyCodes(d) && |Pack(Encode(d, m))| < |m|
    ensures var p := Pad(|Encode(d, m)|);
            OptDecompressed(d, OptCompressed(d, m)) == m <==> p == 0 || ZerosPending(d, p)
  {
    var p := Pad(|Encode(d, m)|);
    DecodedFrame(d, m);
    if p == 0 || ZerosPending(d, p) {
      CleanTail(d, m, p);
    } else {
      DirtyTail(d, m, p);
    }
  }

  // ---------- data kept raw ----------

  /** After the codes of x come bits that hold no code and start none. */
  ghost predicate DerailsAfter(d: Dictionary, bs: bits, x: seq<byte>, rest: bits)
    requires |d| == 256
  {
    Encode(d, x) + rest <= bs && NoCodeInside(d, rest) && !OnPath(d, rest, 256)
  }

  /** Cutting the bits into codes comes to bits that start no code. */
  ghost predicate Derails(d: Dictionary, bs: bits)
    requires |d| == 256
  {
    exists x, rest :: DerailsAfter(d, bs, x, rest)
  }

  /** The walk meets a missing child exactly on such bits. */
  lemma {:induction false} DerailsIff(d: Dictionary, bs: bits)
    requires WellFormed(d) && PrefixFree(d) && NonemptyCodes(d)
    ensures Walk(d, Some(START), bs) == None <==> Derails(d, bs)
  {
    hide Walk, Scan, Encode, OnPath, PrefixFree, NonemptyCodes;
    PrefixFreeIsDistinct(d);
    OnPathRoot(d);
    WalkSurvives(d, START, bs);
    if n :| 0 <= n <= |bs| && !OnPath(d, Scan(d, START, bs[..n]).pending, 256) {
      var s := Scan(d, START, bs[..n]);
      ScanUnique(d, bs[..n], s.output, s.pending);
      assert DerailsAfter(d, bs, s.output, s.pending);
    }
    if x, rest :| DerailsAfter(d, bs, x, rest) {
      var n := |Encode(d, x) + rest|;
      assert bs[..n] == Encode(d, x) + rest;
      ScanUnique(d, bs[..n], x, rest);
    }
  }

  lemma OnPathRoot(d: Dictionary)
    requires |d| == 256
    ensures OnPath(d, START.pending, 256)
  {
  }

  /** The message's own bits begin with its encoding, and hold no code after it. */
  ghost predicate OwnEncoding(d: Dictionary, m: seq<byte>)
    requires |d| == 256
  {
    Encode(d, m) <= BitsOf(m) && NoCodeInside(d, BitsOf(m)[|Encode(d, m)|..])
  }

  /** Nothing marks data that was kept raw, so the decoder walks it all the same. It
      comes back when the walk breaks off, or happens to decode it to itself. */
  lemma {:induction false} RawRoundTripIff(d: Dictionary, m: seq<byte>)
    requires WellFormed(d) && PrefixFree(d) && NonemptyCodes(d)
    ensures OptDecompressed(d, m) == m <==> Derails(d, BitsOf(m)) || OwnEncoding(d, m)
  {
    hide Walk, Scan, Encode, BitsOf, Derails, PrefixFree, NonemptyCodes, NoCodeInside;
    var bs := BitsOf(m);
    DerailsIff(d, bs);
    if !Derails(d, bs) {
      PrefixFreeIsDistinct(d);
      WalkRefinesScan(d, START, bs);
      var s := Scan(d, START, bs);
      ScanUnique(d, bs, s.output, s.pending);
      if Encode(d, m) <= bs {
        var rest := bs[|Encode(d, m)|..];
        assert Encode(d, m) + rest == bs;
        ScanUnique(d, bs, m, rest);
      }
      if s.output == m {
        assert bs[|Encode(d, m)|..] == s.pending;
      }
    }
  }

  /** The exact condition, for any prefix code and every message. */
  lemma {:induction false} OptRoundTripIff(d: Dictionary, m: seq<byte>)
    requires WellFormed(d) && PrefixFree(d) && NonemptyCodes(d)
    ensures var p := Pad(|Encode(d, m)|);
            OptDecompressed(d, OptCompressed(d, m)) == m <==>
            if |Pack(Encode(d, m))| < |m| then p == 0 || ZerosPending(d, p)
            else Derails(d, BitsOf(m)) || OwnEncoding(d, m)
  {
    hide Walk, Encode, BitsOf, Pack, Derails, OwnEncoding, OptDecompressed, ZerosPending, Pad;
    hide PrefixFree, NonemptyCodes;
    if |Pack(Encode(d, m))| < |m| {
      ShrunkRoundTripIff(d, m);
    } else {
      RawRoundTripIff(d, m);
    }
  }

  // ---------- two messages that do not come back ----------

  /** Every byte's code is the eight bits of its complement. */
  function ComplementCode(): (r: Dictionary) {
    seq(256, i requires 0 <= i < 256 => Entry(i, 8, BitsOf([255 - i])))
  }

  /** Byte 0 has a one-bit code, every other byte a nine-bit one. */
  function OneBitCode(): (r: Dictionary) {
    seq(256, i requires 0 <= i < 256 => if i == 0 then Entry(0, 1, [false]) else Entry(i, 9, [true] + BitsOf([i])))
  }

  lemma ComplementIsPrefixCode()
    ensures var d := ComplementCode(); WellFormed(d) && PrefixFree(d) && NonemptyCodes(d)
  {
    hide BitsOf;
    var d := ComplementCode();
    forall i, j | 0 <= i < |d| && 0 <= j < |d| && i != j ensures !Starts(d, i, j) {
      DifferentBits(255 - i, 255 - j);
      assert |d[i].code| == |d[j].code|;
    }
  }

  lemma OneBitIsPrefixCode()
    ensures var d := OneBitCode(); WellFormed(d) && PrefixFree(d) && NonemptyCodes(d)
  {
    hide BitsOf;
    var d := OneBitCode();
    forall i, j | 0 <= i < |d| && 0 <= j < |d| && i != j ensures !Starts(d, i, j) {
      if i != 0 && j != 0 {
        DifferentBits(i, j);
        assert d[i].code[1..] == BitsOf([i]) && d[j].code[1..] == BitsOf([j]);
      } else {
        assert d[i].code[0] != d[j].code[0];
      }
    }
  }

  /** A byte that is kept raw comes back as another byte. */
  lemma RawByteMangled()
    ensures var d := ComplementCode(); OptCompressed(d, [0]) == [0] && OptDecompressed(d, [0]) == [255]
  {
    hide Walk, Encode, Pack, BitsOf, PrefixFree;
    var d := ComplementCode();
    ComplementIsPrefixCode();
    EncodeOne(d, 0);
    PackLength(Encode(d, [0]));
    WalkOneCode(d, [], 255);
    assert d[255].code == BitsOf([0]) && [] + [255] == [255];
  }

  /** Two bytes with a one-bit code come back as eight. */
  lemma PaddingDecoded()
    ensures var d := OneBitCode(); OptDecompressed(d, OptCompressed(d, [0, 0])) == [0, 0] + Repeat(0, 6)
  {
    hide Walk, Encode, Pack, BitsOf, PrefixFree, OptCompressed, OptDecompressed, Repeat;
    var d, m := OneBitCode(), [0, 0];
    OneBitIsPrefixCode();
    EncodeOne(d, 0);
    EncodeSnoc(d, [0], 0);
    assert m == [0] + [0] && Encode(d, m) == [false, false];
    PackLength(Encode(d, m));
    DecodedFrame(d, m);
    assert d[0].code == Zeros(1);
    ZeroRuns(d, m, 0, 6);
    assert Fits(6, 1) == 6;
  }

  // ---------- complete codes ----------

  /** Every bit string follows a path of the trie or runs past a leaf. */
  ghost predicate Complete(d: Dictionary) {
    forall p :: OnPath(d, p, |d|) || exists i :: 0 <= i < |d| && d[i].code <= p
  }

  /** A complete code has an all-zero code. */
  lemma ZeroCode(d: Dictionary) returns (z: byte)
    requires WellFormed(d) && NonemptyCodes(d) && Complete(d)
    ensures d[z].code == Zeros(|d[z].code|) && |d[z].code| > 0
  {
    var p := Zeros(256);
    assert !OnPath(d, p, 256);
    z :| d[z].code <= p;
    assert d[z].code == p[..|d[z].code|] == Zeros(|d[z].code|);
  }

  function Repeat(b: byte, n: nat): (r: seq<byte>) {
    seq(n, _ => b)
  }

  /** How many whole codes of n zeros fit in p zeros, and how many zeros remain. */
  function Fits(p: nat, n: nat): (r: nat)
    requires n > 0
  {
    p / n
  }

  function Left(p: nat, n: nat): (r: nat)
    requires n > 0
  {
    p % n
  }

  lemma NextQuotient(p: nat, n: nat)
    requires n > 0
    ensures Left(p, n) < n && Fits(0, n) == Left(0, n) == 0
    ensures if Left(p, n) + 1 == n then Fits(p + 1, n) == Fits(p, n) + 1 && Left(p + 1, n) == 0
            else Fits(p + 1, n) == Fits(p, n) && Left(p + 1, n) == Left(p, n) + 1
  {
    var q, r := p / n, p % n;
    assert p == n * q + r;
    Quotient(0, n, 0, 0);
    if r + 1 == n {
      assert p + 1 == n * (q + 1);
      Quotient(p + 1, n, q + 1, 0);
    } else {
      Quotient(p + 1, n, q, r + 1);
    }
  }

  /** Zeros decode to the byte of the all-zero code, once every |code| bits. */
  lemma {:induction false} ZeroRuns(d: Dictionary, m: seq<byte>, z: byte, p: nat)
    requires WellFormed(d) && PrefixFree(d)
    requires d[z].code == Zeros(|d[z].code|) && |d[z].code| > 0
    ensures var n := |d[z].code|;
            Walk(d, Some(Scanner(m, [])), Zeros(p)) == Some(Scanner(m + Repeat(z, Fits(p, n)), Zeros(Left(p, n))))
  {
    hide Walk, Descend, PrefixFree, Zeros, Repeat, Fits, Left;
    var n := |d[z].code|;
    if p == 0 {
      NextQuotient(0, n);
      NoZeros(d, m, z);
    } else {
      var r, out := Left(p - 1, n), m + Repeat(z, Fits(p - 1, n));
      ZeroRuns(d, m, z, p - 1);
      ZerosSnoc(p - 1);
      WalkSnoc(d, Some(Scanner(m, [])), Zeros(p - 1), false);
      NextQuotient(p - 1, n);
      DescendToward(d, out, z, r);
      RepeatMore(m, z, Fits(p - 1, n));
    }
  }

  lemma NoZeros(d: Dictionary, m: seq<byte>, z: byte)
    ensures Walk(d, Some(Scanner(m, [])), Zeros(0)) == Some(Scanner(m + Repeat(z, 0), Zeros(0)))
  {
    assert m + Repeat(z, 0) == m;
    assert Zeros(0) == [];
  }

  lemma RepeatMore(m: seq<byte>, z: byte, n: nat)
    ensures m + Repeat(z, n) + [z] == m + Repeat(z, n + 1)
    ensures Zeros(0) == []
  {
  }

  lemma DescendToward(d: Dictionary, out: seq<byte>, z: byte, r: nat)
    requires WellFormed(d) && PrefixFree(d)
    requires d[z].code == Zeros(|d[z].code|) && r < |d[z].code|
    ensures Descend(d, Some(Scanner(out, Zeros(r))), false) ==
            Some(if r + 1 == |d[z].code| then Scanner(out + [z], []) else Scanner(out, Zeros(r + 1)))
  {
    ZerosSnoc(r);
    PrefixFreeIsDistinct(d);
    FirstIsLast(d, Zeros(r + 1));
    assert Zeros(r + 1) <= d[z].code;
    if r + 1 == |d[z].code| {
      CodeMatchesItself(d, z);
    } else {
      NoMatchInsideCode(d, z, r + 1);
      assert Zeros(r + 1) == d[z].code[..r + 1];
    }
  }

  /** With a complete code the walk never breaks off. */
  lemma CompleteNeverDerails(d: Dictionary, bs: bits)
    requires WellFormed(d) && NonemptyCodes(d) && Complete(d)
    ensures !Derails(d, bs)
  {
    forall x, rest ensures !DerailsAfter(d, bs, x, rest) {
      if i :| 0 <= i < 256 && d[i].code <= rest {
        var n := |d[i].code|;
        FirstMatchNone(d, rest[..n], 0);
        assert rest[..n] == d[i].code;
      }
    }
  }

  /** With a complete prefix code a message that coding shrinks comes back followed
      by one byte for each all-zero code that fits in the padding, so it comes back
      exactly when that code is longer than the padding; data kept raw comes back
      exactly when its own bits begin with its encoding. */
  lemma {:induction false} CompleteRoundTrip(d: Dictionary, m: seq<byte>) returns (z: byte)
    requires WellFormed(d) && PrefixFree(d) && NonemptyCodes(d) && Complete(d)
    ensures d[z].code == Zeros(|d[z].code|) && |d[z].code| > 0
    ensures var p, n, back := Pad(|Encode(d, m)|), |d[z].code|, OptDecompressed(d, OptCompressed(d, m));
            if |Pack(Encode(d, m))| < |m| then back == m + Repeat(z, Fits(p, n)) && (back == m <==> n > p)
            else back == m <==> OwnEncoding(d, m)
  {
    hide Walk, Encode, Pack, OptDecompressed, OnPath, PrefixFree, Repeat, Fits, OwnEncoding, Derails, BitsOf;
    z := ZeroCode(d);
    if |Pack(Encode(d, m))| < |m| {
      var p, n := Pad(|Encode(d, m)|), |d[z].code|;
      DecodedFrame(d, m);
      ZeroRuns(d, m, z, p);
      AddedBytes(m, z, p, n);
    } else {
      CompleteNeverDerails(d, BitsOf(m));
      RawRoundTripIff(d, m);
    }
  }

  lemma AddedBytes(m: seq<byte>, z: byte, p: nat, n: nat)
    requires n > 0
    ensures m + Repeat(z, Fits(p, n)) == m <==> n > p
  {
    assert |m + Repeat(z, Fits(p, n))| == |m| + Fits(p, n);
    if n > p {
      Quotient(p, n, 0, p);
      assert m + Repeat(z, 0) == m;
    } else {
      MultipleBound(p / n, n);
      assert p / n > 0;
    }
  }
}
