/** The compression dictionary as a code: encoding, the greedy first-match
    decoder that scans the table after every bit, and when decoding undoes
    encoding. Nothing here depends on how bits are packed into bytes. */
module PrefixCode {
  import opened Bits
  import opened Wrappers

  /** One dictionary entry. `codeLength` is stored beside the code, as in the
      program; it differs from |code| only in a table cut short while loading. */
  datatype Entry = Entry(byte: byte, codeLength: nat, code: bits)

  type Dictionary = seq<Entry>

  /** 256 entries, entry i standing for byte i, each with its whole code. */
  ghost predicate WellFormed(d: Dictionary) {
    && |d| == 256
    && forall i :: 0 <= i < 256 ==> d[i].byte == i && d[i].codeLength == |d[i].code| < 256
  }

  function CodeOf(d: Dictionary, b: byte): (r: bits)
    requires |d| == 256
  {
    d[b].code
  }

  function Encode(d: Dictionary, m: seq<byte>): (r: bits)
    requires |d| == 256
  {
    if m == [] then [] else Encode(d, m[..|m| - 1]) + CodeOf(d, m[|m| - 1])
  }

  // ---------- the table scan ----------

  /** The byte of the first entry, from entry q on, whose code is p. */
  function FirstMatch(d: Dictionary, p: bits, q: nat): (r: Option<byte>)
    requires q <= |d|
    decreases |d| - q
  {
    if q == |d| then None
    else if d[q].codeLength == |p| && d[q].code == p then Some(d[q].byte)
    else FirstMatch(d, p, q + 1)
  }

  /** What a decoder has after reading some bits. */
  datatype Scanner = Scanner(output: seq<byte>, pending: bits)

  const START := Scanner([], [])

  function Feed(d: Dictionary, s: Scanner, b: bool): (r: Scanner) {
    match FirstMatch(d, s.pending + [b], 0)
    case Some(e) => Scanner(s.output + [e], [])
    case None => Scanner(s.output, s.pending + [b])
  }

  function Scan(d: Dictionary, s: Scanner, bs: bits): (r: Scanner) {
    if bs == [] then s else Feed(d, Scan(d, s, bs[..|bs| - 1]), bs[|bs| - 1])
  }

  // ---------- what makes a code decodable ----------

  ghost predicate NonemptyCodes(d: Dictionary) {
    forall i :: 0 <= i < |d| ==> d[i].code != []
  }

  /** The code of entry i starts that of entry j. */
  predicate Starts(d: Dictionary, i: nat, j: nat)
    requires i < |d| && j < |d|
  {
    d[i].code <= d[j].code
  }

  /** No code is a prefix of the code of another entry (so no two are equal). */
  ghost predicate PrefixFree(d: Dictionary) {
    forall i, j :: 0 <= i < |d| && 0 <= j < |d| && i != j ==> !Starts(d, i, j)
  }

  ghost predicate DistinctCodes(d: Dictionary) {
    forall i, j :: 0 <= i < |d| && 0 <= j < |d| && i != j ==> d[i].code != d[j].code
  }

  lemma PrefixFreeIsDistinct(d: Dictionary)
    requires PrefixFree(d)
    ensures DistinctCodes(d)
  {
    forall i, j | 0 <= i < |d| && 0 <= j < |d| && i != j ensures d[i].code != d[j].code {
      assert !Starts(d, i, j);
    }
  }

  // ---------- lemmas about encoding ----------

  lemma EncodeSnoc(d: Dictionary, m: seq<byte>, b: byte)
    requires |d| == 256
    ensures Encode(d, m + [b]) == Encode(d, m) + CodeOf(d, b)
  {
    assert (m + [b])[..|m|] == m;
  }

  lemma {:induction false} EncodeAppend(d: Dictionary, a: seq<byte>, b: seq<byte>)
    requires |d| == 256
    ensures Encode(d, a + b) == Encode(d, a) + Encode(d, b)
  {
    if b == [] {
      assert a + b == a;
    } else {
      var init, last := b[..|b| - 1], b[|b| - 1];
      calc {
        Encode(d, a + b);
        { assert a + b == a + init + [last]; }
        Encode(d, a + init + [last]);
        { EncodeSnoc(d, a + init, last); }
        Encode(d, a + init) + CodeOf(d, last);
        { EncodeAppend(d, a, init); }
        Encode(d, a) + Encode(d, init) + CodeOf(d, last);
        Encode(d, a) + (Encode(d, init) + CodeOf(d, last));
        Encode(d, a) + Encode(d, b);
      }
    }
  }

  lemma EncodeNothing(d: Dictionary)
    requires |d| == 256
    ensures Encode(d, []) == []
  {
  }

  lemma EncodeOne(d: Dictionary, b: byte)
    requires |d| == 256
    ensures Encode(d, [b]) == CodeOf(d, b)
  {
    assert [b][..0] == [];
  }

  lemma EncodePrefix(d: Dictionary, m: seq<byte>, n: nat)
    requires |d| == 256 && n <= |m|
    ensures Encode(d, m[..n]) <= Encode(d, m)
  {
    hide Encode;
    EncodeAppend(d, m[..n], m[n..]);
    assert m[..n] + m[n..] == m;
  }

  lemma EncodeNext(d: Dictionary, m: seq<byte>, i: nat)
    requires |d| == 256 && i < |m|
    ensures Encode(d, m[..i + 1]) == Encode(d, m[..i]) + CodeOf(d, m[i])
    ensures |Encode(d, m[..i + 1])| <= |Encode(d, m)|
  {
    assert m[..i + 1] == m[..i] + [m[i]];
    EncodeSnoc(d, m[..i], m[i]);
    EncodePrefix(d, m, i + 1);
  }

  // ---------- lemmas about the scan ----------

  lemma ScanSnoc(d: Dictionary, s: Scanner, bs: bits, b: bool)
    ensures Scan(d, s, bs + [b]) == Feed(d, Scan(d, s, bs), b)
  {
    assert (bs + [b])[..|bs|] == bs;
  }

  lemma ScanNext(d: Dictionary, bs: bits, n: nat)
    requires n < |bs|
    ensures Scan(d, START, bs[..n + 1]) == Feed(d, Scan(d, START, bs[..n]), bs[n])
  {
    assert bs[..n + 1] == bs[..n] + [bs[n]];
    ScanSnoc(d, START, bs[..n], bs[n]);
  }

  lemma {:induction false} ScanAppend(d: Dictionary, s: Scanner, a: bits, b: bits)
    ensures Scan(d, s, a + b) == Scan(d, Scan(d, s, a), b)
  {
    if b == [] {
      assert a + b == a;
    } else {
      var init := b[..|b| - 1];
      ScanAppend(d, s, a, init);
      assert (a + b)[..|a + b| - 1] == a + init;
    }
  }

  lemma {:induction false} FirstMatchNone(d: Dictionary, p: bits, q: nat)
    requires q <= |d|
    ensures FirstMatch(d, p, q) == None <==>
            forall i :: q <= i < |d| ==> !(d[i].codeLength == |p| && d[i].code == p)
    decreases |d| - q
  {
    if q < |d| {
      FirstMatchNone(d, p, q + 1);
    }
  }

  /** A match is an entry with that code, and the earliest one. */
  lemma {:induction false} FirstMatchSome(d: Dictionary, p: bits, q: nat) returns (i: nat)
    requires q <= |d| && FirstMatch(d, p, q).Some?
    ensures q <= i < |d| && d[i].codeLength == |p| && d[i].code == p
    ensures FirstMatch(d, p, q) == Some(d[i].byte)
    ensures forall j :: q <= j < i ==> !(d[j].codeLength == |p| && d[j].code == p)
    decreases |d| - q
  {
    if d[q].codeLength == |p| && d[q].code == p {
      i := q;
    } else {
      i := FirstMatchSome(d, p, q + 1);
    }
  }

  lemma MatchIsCode(d: Dictionary, p: bits)
    requires WellFormed(d) && FirstMatch(d, p, 0).Some?
    ensures CodeOf(d, FirstMatch(d, p, 0).value) == p
  {
    var i := FirstMatchSome(d, p, 0);
  }

  lemma FeedSound(d: Dictionary, s: Scanner, b: bool)
    requires WellFormed(d)
    ensures var t := Feed(d, s, b); Encode(d, t.output) + t.pending == Encode(d, s.output) + (s.pending + [b])
  {
    var p := s.pending + [b];
    if FirstMatch(d, p, 0).Some? {
      MatchIsCode(d, p);
      var e := FirstMatch(d, p, 0).value;
      EncodeAppend(d, s.output, [e]);
      EncodeOne(d, e);
    }
  }

  /** The scan never loses or invents a bit: what it has emitted, encoded again,
      followed by what it still holds, is what it has read. */
  lemma {:induction false} ScanSound(d: Dictionary, bs: bits)
    requires WellFormed(d)
    ensures var s := Scan(d, START, bs); Encode(d, s.output) + s.pending == bs
  {
    hide Encode, Scan, Feed;
    if bs == [] {
      ScanNone(d, bs);
    } else {
      var init, b := bs[..|bs| - 1], bs[|bs| - 1];
      assert init + [b] == bs;
      ScanSound(d, init);
      ScanSnoc(d, START, init, b);
      var s := Scan(d, START, init);
      FeedSound(d, s, b);
      assert Encode(d, s.output) + (s.pending + [b]) == (Encode(d, s.output) + s.pending) + [b];
    }
  }

  lemma ScanNone(d: Dictionary, bs: bits)
    requires |d| == 256 && bs == []
    ensures var s := Scan(d, START, bs); s.pending == [] && Encode(d, s.output) == []
  {
  }

  /** Nothing that the scan still holds starts with a code. */
  ghost predicate NoCodeInside(d: Dictionary, p: bits) {
    forall n :: 1 <= n <= |p| ==> FirstMatch(d, p[..n], 0) == None
  }

  lemma {:induction false} ScanGreedy(d: Dictionary, s: Scanner, bs: bits)
    requires NoCodeInside(d, s.pending)
    ensures NoCodeInside(d, Scan(d, s, bs).pending)
  {
    if bs != [] {
      var init, b := bs[..|bs| - 1], bs[|bs| - 1];
      ScanGreedy(d, s, init);
      var p := Scan(d, s, init).pending;
      forall n | 1 <= n <= |p| ensures (p + [b])[..n] == p[..n] {
      }
      assert (p + [b])[..|p| + 1] == p + [b];
    }
  }

  /** Bits that complete no code are only collected. */
  lemma {:induction false} ScanCollects(d: Dictionary, s: Scanner, bs: bits)
    requires forall n :: 1 <= n <= |bs| ==> FirstMatch(d, s.pending + bs[..n], 0) == None
    ensures Scan(d, s, bs) == Scanner(s.output, s.pending + bs)
  {
    if bs == [] {
      assert s.pending + bs == s.pending;
    } else {
      var init, b := bs[..|bs| - 1], bs[|bs| - 1];
      forall n | 1 <= n <= |init| ensures init[..n] == bs[..n] {
      }
      ScanCollects(d, s, init);
      assert bs[..|bs|] == bs;
      assert s.pending + init + [b] == s.pending + bs;
    }
  }

  /** In a prefix code, no proper part of a code matches an entry. */
  lemma NoMatchInsideCode(d: Dictionary, b: byte, n: nat)
    requires WellFormed(d) && PrefixFree(d) && n < |CodeOf(d, b)|
    ensures FirstMatch(d, CodeOf(d, b)[..n], 0) == None
  {
    var c := CodeOf(d, b);
    forall i | 0 <= i < 256 ensures d[i].code != c[..n] {
      assert i == b || !Starts(d, i, b);
    }
    FirstMatchNone(d, c[..n], 0);
  }

  /** With distinct codes, the entry found for a code is the one it belongs to. */
  lemma CodeMatchesItself(d: Dictionary, b: byte)
    requires WellFormed(d) && DistinctCodes(d)
    ensures FirstMatch(d, CodeOf(d, b), 0) == Some(b)
  {
    FirstMatchNone(d, CodeOf(d, b), 0);
    var i := FirstMatchSome(d, CodeOf(d, b), 0);
  }

  /** Reading one whole code of a prefix code emits its byte. */
  lemma {:induction false} ScanOneCode(d: Dictionary, out: seq<byte>, b: byte)
    requires WellFormed(d) && PrefixFree(d) && NonemptyCodes(d)
    ensures Scan(d, Scanner(out, []), CodeOf(d, b)) == Scanner(out + [b], [])
  {
    var c := CodeOf(d, b);
    var s, init := Scanner(out, []), c[..|c| - 1];
    forall n | 1 <= n <= |init| ensures FirstMatch(d, s.pending + init[..n], 0) == None {
      NoMatchInsideCode(d, b, n);
      assert s.pending + init[..n] == c[..n];
    }
    ScanCollects(d, s, init);
    assert s.pending + init + [c[|c| - 1]] == c;
    PrefixFreeIsDistinct(d);
    CodeMatchesItself(d, b);
  }

  /** Decoding undoes encoding for every message of a prefix code. */
  lemma {:induction false} ScanEncode(d: Dictionary, m: seq<byte>)
    requires WellFormed(d) && PrefixFree(d) && NonemptyCodes(d)
    ensures Scan(d, START, Encode(d, m)) == Scanner(m, [])
  {
    if m == [] {
    } else {
      var init, b := m[..|m| - 1], m[|m| - 1];
      assert m == init + [b];
      calc {
        Scan(d, START, Encode(d, m));
        { EncodeSnoc(d, init, b); }
        Scan(d, START, Encode(d, init) + CodeOf(d, b));
        { ScanAppend(d, START, Encode(d, init), CodeOf(d, b)); }
        Scan(d, Scan(d, START, Encode(d, init)), CodeOf(d, b));
        { ScanEncode(d, init); }
        Scan(d, Scanner(init, []), CodeOf(d, b));
        { ScanOneCode(d, init, b); }
        Scanner(m, []);
      }
    }
  }

  /** Bits after the message that complete no code stay pending. */
  lemma {:induction false} ScanEncodeRest(d: Dictionary, m: seq<byte>, rest: bits)
    requires WellFormed(d) && PrefixFree(d) && NonemptyCodes(d) && NoCodeInside(d, rest)
    ensures Scan(d, START, Encode(d, m) + rest) == Scanner(m, rest)
  {
    var s := Scanner(m, []);
    ScanEncode(d, m);
    ScanAppend(d, START, Encode(d, m), rest);
    forall n | 1 <= n <= |rest| ensures FirstMatch(d, s.pending + rest[..n], 0) == None {
      assert s.pending + rest[..n] == rest[..n];
    }
    ScanCollects(d, s, rest);
    assert s.pending + rest == rest;
  }

  /** For a prefix code the scan computes the one way to split a bit string into
      codes and a rest that starts with no code. */
  lemma {:induction false} ScanUnique(d: Dictionary, bs: bits, m: seq<byte>, rest: bits)
    requires WellFormed(d) && PrefixFree(d) && NonemptyCodes(d)
    ensures Scan(d, START, bs) == Scanner(m, rest) <==>
            Encode(d, m) + rest == bs && NoCodeInside(d, rest)
  {
    ScanSound(d, bs);
    ScanGreedy(d, START, bs);
    if Encode(d, m) + rest == bs && NoCodeInside(d, rest) {
      ScanEncodeRest(d, m, rest);
    }
  }

  // ---------- a dictionary that is not a prefix code loses messages ----------

  lemma FeedLone(d: Dictionary, s: Scanner, b: bool, j: byte)
    requires Feed(d, s, b) == Scanner([j], [])
    ensures s.output == [] && FirstMatch(d, s.pending + [b], 0) == Some(j)
  {
    assert |s.pending + [b]| > 0;
    var e := FirstMatch(d, s.pending + [b], 0).value;
    assert |s.output + [e]| == 1 && (s.output + [e])[|s.output|] == e;
  }

  /** If the scan of a code gives just byte j, its last bit completed j's entry
      and everything before was still pending. */
  lemma LoneOutput(d: Dictionary, init: bits, b: bool, j: byte)
    requires WellFormed(d) && d[j].code == init + [b] && Scan(d, START, init + [b]).output == [j]
    ensures FirstMatch(d, init + [b], 0) == Some(j)
    ensures Scan(d, START, init) == Scanner([], init)
  {
    var before := Scan(d, START, init);
    ScanSnoc(d, START, init, b);
    ScanSound(d, init + [b]);
    EncodeOne(d, j);
    assert |Scan(d, START, init + [b]).pending| == 0;
    FeedLone(d, before, b, j);
    ScanSound(d, init);
    assert Encode(d, []) + before.pending == before.pending;
  }

  /** When another code starts a code, or an earlier entry has the same code, the
      scan of that code alone does not give back its byte. */
  lemma {:induction false} ClashingCodeLost(d: Dictionary, i: byte, j: byte)
    requires WellFormed(d) && i != j && d[i].code <= d[j].code
    requires d[i].code != [] && (d[i].code == d[j].code ==> i < j)
    ensures Scan(d, START, d[j].code).output != [j]
  {
    hide Scan, FirstMatch;
    var c, k := d[j].code, |d[i].code|;
    if Scan(d, START, c).output == [j] {
      var init := c[..|c| - 1];
      assert init + [c[|c| - 1]] == c;
      LoneOutput(d, init, c[|c| - 1], j);
      if k < |c| {
        ScanGreedy(d, START, init);
        assert init[..k] == d[i].code;
        FirstMatchNone(d, d[i].code, 0);
        assert false;
      } else {
        var q := FirstMatchSome(d, c, 0);
        assert false;
      }
    }
  }
}
