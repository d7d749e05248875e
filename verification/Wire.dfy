/** The wire format: a header byte, an eight-byte big-endian length, the payload. */
module Wire {
  import opened Bits

  // ---------- big-endian numbers ----------

  function Pow256(n: nat): (r: nat)
    ensures r > 0
  {
    if n == 0 then 1 else 256 * Pow256(n - 1)
  }

  /** The n low bytes of v, most significant first (what a byte swap on a
      little-endian machine puts in memory). */
  function BytesOf(v: nat, n: nat): (r: seq<byte>)
    ensures |r| == n
  {
    if n == 0 then [] else BytesOf(v / 256, n - 1) + [v % 256]
  }

  function NumberOf(bs: seq<byte>): (r: nat)
    ensures r < Pow256(|bs|)
  {
    if bs == [] then 0 else 256 * NumberOf(bs[..|bs| - 1]) + bs[|bs| - 1]
  }

  lemma {:induction false} NumberRoundTrip(v: nat, n: nat)
    requires v < Pow256(n)
    ensures NumberOf(BytesOf(v, n)) == v
  {
    if n > 0 {
      NumberRoundTrip(v / 256, n - 1);
      assert BytesOf(v, n)[..n - 1] == BytesOf(v / 256, n - 1);
    }
  }

  /** Byte i of n has the weight 256^(n - 1 - i): the most significant comes first. */
  lemma {:induction false} BigEndian(v: nat, n: nat, i: nat)
    requires i < n
    ensures BytesOf(v, n)[i] == v / Pow256(n - 1 - i) % 256
  {
    if i < n - 1 {
      BigEndian(v / 256, n - 1, i);
      DivDiv(v, 256, Pow256(n - 2 - i));
    }
  }

  lemma {:induction false} BytesRoundTrip(bs: seq<byte>)
    ensures BytesOf(NumberOf(bs), |bs|) == bs
  {
    if bs != [] {
      BytesRoundTrip(bs[..|bs| - 1]);
    }
  }

  // ---------- the header byte ----------

  /** `(type << 4)`, or-ed with `1 << 3` and `1 << 2` for the two flags. */
  function HeaderByte(kind: nat, compression: bool, requiresCompression: bool): (r: byte)
    requires kind < 16
  {
    HeaderValue(kind, compression, requiresCompression);
    Or(Or(Shl(kind, 4), if compression then Shl(1, 3) else 0), if requiresCompression then Shl(1, 2) else 0)
  }

  /** Or-ing 1 << k into a number with k + 1 zero digits at the end adds 2^k. */
  lemma {:induction false} OrLowMask(v: nat, k: nat)
    ensures Or(Shl(v, k + 1), Shl(1, k)) == Shl(v, k + 1) + Shl(1, k)
  {
    if k == 0 {
      assert Shl(v, 1) == 2 * v;
      OrWithZero(v);
    } else {
      assert Shl(v, k + 1) / 2 == Shl(v, k) && Shl(1, k) / 2 == Shl(1, k - 1);
      OrLowMask(v, k - 1);
    }
  }

  lemma ShlValues(v: nat)
    ensures Shl(v, 1) == 2 * v && Shl(v, 2) == 4 * v && Shl(v, 3) == 8 * v && Shl(v, 4) == 16 * v
  {
    assert Shl(v, 2) == 2 * Shl(v, 1);
    assert Shl(v, 3) == 2 * Shl(v, 2);
  }

  lemma ShrValues(v: nat)
    ensures Shr(v, 2) == v / 4 && Shr(v, 3) == v / 8 && Shr(v, 4) == v / 16
  {
    assert Shr(v, 2) == Shr(v / 2, 1) == Shr(v / 2 / 2, 0);
    assert Shr(v, 3) == Shr(v / 2 / 2, 1) == Shr(v / 2 / 2 / 2, 0);
    assert Shr(v, 4) == Shr(v / 2, 3) == Shr(v / 2 / 2, 2);
  }

  lemma HeaderValue(kind: nat, compression: bool, requiresCompression: bool)
    ensures Or(Or(Shl(kind, 4), if compression then Shl(1, 3) else 0), if requiresCompression then Shl(1, 2) else 0)
            == 16 * kind + (if compression then 8 else 0) + (if requiresCompression then 4 else 0)
  {
    ShlValues(1);
    ShlValues(kind);
    var x := if compression then 2 * kind + 1 else 2 * kind;
    ShlValues(x);
    OrWithZero(Shl(kind, 4));
    OrLowMask(kind, 3);
    assert Or(Shl(kind, 4), if compression then Shl(1, 3) else 0) == Shl(x, 3);
    OrWithZero(Shl(x, 3));
    OrLowMask(x, 2);
  }

  /** `header >> 4` */
  function KindOf(header: byte): (r: nat) {
    Shr(header, 4)
  }

  /** The type is in the high four bits, the flags are worth eight and four. */
  lemma HeaderLayout(kind: nat, compression: bool, requiresCompression: bool)
    requires kind < 16
    ensures HeaderByte(kind, compression, requiresCompression) ==
            16 * kind + (if compression then 8 else 0) + (if requiresCompression then 4 else 0)
    ensures forall h: byte :: KindOf(h) == h / 16
  {
    hide Or, Shl, Shr;
    HeaderValue(kind, compression, requiresCompression);
    forall h: byte ensures KindOf(h) == h / 16 {
      ShrValues(h);
    }
  }

  /** The fields of a header byte are read back as they were written. */
  lemma HeaderRoundTrip(kind: nat, compression: bool, requiresCompression: bool)
    requires kind < 16
    ensures var h := HeaderByte(kind, compression, requiresCompression);
            KindOf(h) == kind && ShiftedBit(h, 3) == compression && ShiftedBit(h, 2) == requiresCompression
  {
    hide Or, Shl, Shr, Bit, And;
    var h, c := HeaderByte(kind, compression, requiresCompression), if compression then 1 else 0;
    HeaderValue(kind, compression, requiresCompression);
    ShrValues(h);
    assert h / 16 == kind && h / 8 == 2 * kind + c;
    assert h / 4 == 4 * kind + 2 * c + if requiresCompression then 1 else 0;
    BitByShift(h, 3);
    BitByShift(h, 2);
  }

  lemma BitByShift(v: nat, k: nat)
    ensures Bit(v, k) == (Shr(v, k) % 2 == 1)
  {
    BitOfShr(v, k, 0);
  }

  // ---------- whole messages ----------

  /** Header byte, length, payload. */
  function MessageBytes(header: byte, payload: seq<byte>): (r: seq<byte>) {
    [header] + BytesOf(|payload|, 8) + payload
  }

  /** The length field of a buffer that holds a whole header. */
  function LengthField(buffer: seq<byte>): (r: nat)
    requires |buffer| >= 9
  {
    NumberOf(buffer[1..9])
  }

  lemma MessageFields(header: byte, payload: seq<byte>, rest: seq<byte>)
    requires |payload| < Pow256(8)
    ensures var b := MessageBytes(header, payload) + rest;
            && |b| == 9 + |payload| + |rest| && b[0] == header && LengthField(b) == |payload|
            && b[9..9 + |payload|] == payload && b[9 + |payload|..] == rest
            && NumberOf(b[1..9]) == |payload|
  {
    var b := MessageBytes(header, payload) + rest;
    assert b[1..9] == BytesOf(|payload|, 8);
    NumberRoundTrip(|payload|, 8);
  }
}
