/** Bitwise operators on natural numbers, bytes, and the
    most-significant-bit-first order in which the codec reads and writes bits. */
module Bits {

  type byte = n: int | 0 <= n < 256
  type bits = seq<bool>

  /** The largest C `int` on the platforms the server is built for. */
  const INT_MAX: int := 0x7fff_ffff

  // ---------- bitwise operators, by binary digits ----------

  function Pow2(n: nat): (r: nat)
    ensures r > 0
  {
    if n == 0 then 1 else 2 * Pow2(n - 1)
  }

  /** A nonzero multiple of n is at least as far from zero as n. */
  lemma MultipleBound(k: int, n: nat)
    ensures k >= 1 ==> k * n >= n
    ensures k <= -1 ==> k * n <= 0 - n
  {
  }

  /** Division has one quotient and one remainder. */
  lemma Quotient(a: nat, n: nat, q: nat, r: nat)
    requires n > 0 && r < n && a == n * q + r
    ensures a / n == q && a % n == r
  {
    var k := a / n - q;
    assert k * n == r - a % n;
    MultipleBound(k, n);
  }

  /** Dividing twice is dividing by the product. */
  lemma DivDiv(v: nat, a: nat, p: nat)
    requires a > 0 && p > 0
    ensures v / a / p == v / (a * p)
  {
    var q, s := v / a / p, v / a % p;
    var r := a * s + v % a;
    SplitTwice(v, a, p, q, s);
    Quotient(v, a * p, q, r);
  }

  lemma SplitTwice(v: nat, a: nat, p: nat, q: nat, s: nat)
    requires a > 0 && p > 0 && v / a == p * q + s && s < p
    ensures a * p > 0 && 0 <= a * s + v % a < a * p
    ensures v == (a * p) * q + (a * s + v % a)
  {
    assert v == a * (p * q + s) + v % a;
    assert a * (p * q + s) == a * (p * q) + a * s == (a * p) * q + a * s;
    assert a * s <= a * (p - 1) == a * p - a;
  }

  /** `a << k` */
  function Shl(a: nat, k: nat): (r: nat) {
    if k == 0 then a else 2 * Shl(a, k - 1)
  }

  /** `a >> k` */
  function Shr(a: nat, k: nat): (r: nat) {
    if k == 0 then a else Shr(a / 2, k - 1)
  }

  /** `a | b` */
  function Or(a: nat, b: nat): (r: nat)
    decreases a + b
  {
    if a == 0 && b == 0 then 0
    else 2 * Or(a / 2, b / 2) + if a % 2 == 1 || b % 2 == 1 then 1 else 0
  }

  /** `a & b` */
  function And(a: nat, b: nat): (r: nat)
    decreases a + b
  {
    if a == 0 && b == 0 then 0
    else 2 * And(a / 2, b / 2) + if a % 2 == 1 && b % 2 == 1 then 1 else 0
  }

  /** `~b`, on eight bits */
  function Not(b: byte): (r: byte) {
    255 - b
  }

  /** Binary digit number k, counted from the least significant. */
  predicate Bit(a: nat, k: nat) {
    if k == 0 then a % 2 == 1 else Bit(a / 2, k - 1)
  }

  lemma {:induction false} BitOfZero(k: nat)
    ensures !Bit(0, k)
  {
    if k > 0 {
      BitOfZero(k - 1);
    }
  }

  lemma {:induction false} OrWithZero(v: nat)
    ensures Or(v, 0) == v
  {
    if v > 0 {
      OrWithZero(v / 2);
    }
  }

  lemma {:induction false} BitOfOr(a: nat, b: nat, k: nat)
    ensures Bit(Or(a, b), k) == (Bit(a, k) || Bit(b, k))
  {
    if a == 0 && b == 0 {
    } else if k > 0 {
      BitOfOr(a / 2, b / 2, k - 1);
    }
  }

  lemma {:induction false} BitOfAnd(a: nat, b: nat, k: nat)
    ensures Bit(And(a, b), k) == (Bit(a, k) && Bit(b, k))
  {
    if a == 0 && b == 0 {
    } else if k > 0 {
      BitOfAnd(a / 2, b / 2, k - 1);
    }
  }

  lemma {:induction false} BitOfShl(a: nat, s: nat, k: nat)
    ensures Bit(Shl(a, s), k) == (s <= k && Bit(a, k - s))
  {
    if s > 0 && k > 0 {
      BitOfShl(a, s - 1, k - 1);
    }
  }

  /** `1 << s` has exactly digit s. */
  lemma BitOfMask(s: nat, k: nat)
    ensures Bit(Shl(1, s), k) == (k == s)
  {
    BitOfShl(1, s, k);
    if k > s {
      BitOfZero(k - s - 1);
    }
  }

  lemma {:induction false} BitOfShr(a: nat, s: nat, k: nat)
    ensures Bit(Shr(a, s), k) == Bit(a, s + k)
  {
    if s > 0 {
      BitOfShr(a / 2, s - 1, k);
    }
  }

  lemma {:induction false} BitOfComplement(n: nat, b: nat, k: nat)
    requires b < Pow2(n) && k < n
    ensures Bit(Pow2(n) - 1 - b, k) == !Bit(b, k)
  {
    if k > 0 {
      assert (Pow2(n) - 1 - b) / 2 == Pow2(n - 1) - 1 - b / 2;
      BitOfComplement(n - 1, b / 2, k - 1);
    }
  }

  lemma Pow2Of8()
    ensures Pow2(8) == 256
  {
    assert Pow2(4) == 16;
  }

  lemma BitOfNot(b: byte, k: nat)
    requires k < 8
    ensures Bit(Not(b), k) == !Bit(b, k)
  {
    Pow2Of8();
    BitOfComplement(8, b, k);
  }

  lemma {:induction false} OrBound(n: nat, a: nat, b: nat)
    requires a < Pow2(n) && b < Pow2(n)
    ensures Or(a, b) < Pow2(n)
  {
    if n > 0 {
      OrBound(n - 1, a / 2, b / 2);
    }
  }

  lemma {:induction false} AndBound(a: nat, b: nat)
    ensures And(a, b) <= a && And(a, b) <= b
    decreases a + b
  {
    if a != 0 || b != 0 {
      AndBound(a / 2, b / 2);
    }
  }

  lemma {:induction false} ShlBound(k: nat, n: nat)
    requires k < n
    ensures Shl(1, k) < Pow2(n)
  {
    if k == 0 {
      assert Pow2(n) == 2 * Pow2(n - 1);
    } else {
      ShlBound(k - 1, n - 1);
    }
  }

  /** Numbers below 2^n with the same n digits are equal. */
  lemma {:induction false} DigitsDetermine(n: nat, a: nat, b: nat)
    requires a < Pow2(n) && b < Pow2(n)
    requires forall k: nat | k < n :: Bit(a, k) == Bit(b, k)
    ensures a == b
  {
    if n > 0 {
      assert Bit(a, 0) == Bit(b, 0);
      forall k: nat | k < n - 1 ensures Bit(a / 2, k) == Bit(b / 2, k) {
        assert Bit(a, k + 1) == Bit(b, k + 1);
      }
      DigitsDetermine(n - 1, a / 2, b / 2);
    }
  }

  // ---------- bytes ----------

  /** `b |= 1 << k` */
  function SetBit(b: byte, k: nat): (r: byte)
    requires k < 8
  {
    Pow2Of8();
    ShlBound(k, 8);
    OrBound(8, b, Shl(1, k));
    Or(b, Shl(1, k))
  }

  /** `b &= ~(1 << k)` */
  function ClearBit(b: byte, k: nat): (r: byte)
    requires k < 8
  {
    Pow2Of8();
    ShlBound(k, 8);
    AndBound(b, Not(Shl(1, k)));
    And(b, Not(Shl(1, k)))
  }

  /** Setting or clearing bit k decides bit k and no other. */
  lemma WriteBit(b: byte, k: nat, j: nat)
    requires k < 8 && j < 8
    ensures Bit(SetBit(b, k), j) == (j == k || Bit(b, j))
    ensures Bit(ClearBit(b, k), j) == (j != k && Bit(b, j))
  {
    Pow2Of8();
    ShlBound(k, 8);
    BitOfMask(k, j);
    BitOfOr(b, Shl(1, k), j);
    BitOfNot(Shl(1, k), j);
    BitOfAnd(b, Not(Shl(1, k)), j);
  }

  /** `(b & (1 << k)) >> k` (compression.c) and `(b >> k) & 1` (the other
      decoders) are both 1 for a set bit and 0 for a clear one. */
  lemma {:induction false} ReadBit(b: nat, k: nat)
    ensures Shr(And(b, Shl(1, k)), k) == And(Shr(b, k), 1) == if Bit(b, k) then 1 else 0
  {
    if k == 0 {
      AndBound(b / 2, 0);
    } else {
      assert And(b, Shl(1, k)) / 2 == And(b / 2, Shl(1, k - 1));
      ReadBit(b / 2, k - 1);
    }
  }

  /** The bit that compression.c extracts by masking and then shifting. */
  function MaskedBit(b: nat, k: nat): (r: bool)
    ensures r == Bit(b, k)
  {
    ReadBit(b, k);
    Shr(And(b, Shl(1, k)), k) == 1
  }

  /** The bit that the other decoders extract by shifting and then masking. */
  function ShiftedBit(b: nat, k: nat): (r: bool)
    ensures r == Bit(b, k)
  {
    ReadBit(b, k);
    And(Shr(b, k), 1) == 1
  }

  // ---------- byte sequences as bit sequences ----------

  predicate BitAt(bytes: seq<byte>, i: nat)
    requires i < 8 * |bytes|
  {
    Bit(bytes[i / 8], 7 - i % 8)
  }

  /** The bits of a buffer, most significant bit of each byte first. */
  function BitsOf(bytes: seq<byte>): (r: bits)
    ensures |r| == 8 * |bytes|
  {
    seq(8 * |bytes|, i requires 0 <= i < 8 * |bytes| => BitAt(bytes, i))
  }

  function Zeros(n: nat): (r: bits) {
    seq(n, _ => false)
  }

  /** How many bits complete n bits to whole bytes. */
  function Pad(n: nat): (r: nat) {
    (8 - n % 8) % 8
  }

  /** The number whose binary digits, most significant first, are bs. */
  function BinaryValue(bs: bits): (r: nat)
    ensures r < Pow2(|bs|)
  {
    if bs == [] then 0
    else 2 * BinaryValue(bs[..|bs| - 1]) + if bs[|bs| - 1] then 1 else 0
  }

  /** The last n binary digits of v, most significant first. */
  function Binary(v: nat, n: nat): (r: bits)
    ensures |r| == n
  {
    if n == 0 then [] else Binary(v / 2, n - 1) + [v % 2 == 1]
  }

  lemma {:induction false} BinaryRoundTrip(v: nat, n: nat)
    requires v < Pow2(n)
    ensures BinaryValue(Binary(v, n)) == v
  {
    if n > 0 {
      BinaryRoundTrip(v / 2, n - 1);
      assert Binary(v, n)[..n - 1] == Binary(v / 2, n - 1);
    }
  }

  /** Digit k of a binary value is the k-th bit from the right. */
  lemma {:induction false} BitOfBinaryValue(bs: bits, k: nat)
    ensures Bit(BinaryValue(bs), k) == (k < |bs| && bs[|bs| - 1 - k])
  {
    if bs == [] {
      BitOfZero(k);
    } else if k > 0 {
      var init := bs[..|bs| - 1];
      assert BinaryValue(bs) / 2 == BinaryValue(init);
      BitOfBinaryValue(init, k - 1);
      if k < |bs| {
        assert bs[|bs| - 1 - k] == init[|init| - 1 - (k - 1)];
      }
    }
  }

  /** The byte that starts with the given bits and has zeros after them. */
  function PackByte(bs: bits): (r: byte)
    requires |bs| <= 8
  {
    Pow2Of8();
    BinaryValue(bs + Zeros(8 - |bs|))
  }

  lemma PackByteBits(bs: bits, j: nat)
    requires |bs| <= 8 && j < 8
    ensures Bit(PackByte(bs), 7 - j) == (j < |bs| && bs[j])
  {
    BitOfBinaryValue(bs + Zeros(8 - |bs|), 7 - j);
  }

  /** The (at most eight) bits that go into byte number n. */
  function Chunk(bs: bits, n: nat): (r: bits)
    requires 8 * n < |bs|
    ensures |r| <= 8
  {
    if 8 * n + 8 <= |bs| then bs[8 * n..8 * n + 8] else bs[8 * n..]
  }

  /** The shortest buffer that starts with the given bits, padded with zeros. */
  function Pack(bs: bits): (r: seq<byte>) {
    if bs == [] then []
    else
      var n := (|bs| - 1) / 8;
      Pack(bs[..8 * n]) + [PackByte(bs[8 * n..])]
  }

  lemma {:induction false} PackLength(bs: bits)
    ensures |Pack(bs)| == (|bs| + 7) / 8
  {
    if bs != [] {
      PackLength(bs[..8 * ((|bs| - 1) / 8)]);
    }
  }

  lemma {:induction false} PackAt(bs: bits, n: nat)
    requires 8 * n < |bs|
    ensures n < |Pack(bs)| && Pack(bs)[n] == PackByte(Chunk(bs, n))
  {
    PackLength(bs);
    var last := (|bs| - 1) / 8;
    if n < last {
      PackAt(bs[..8 * last], n);
      assert Chunk(bs, n) == Chunk(bs[..8 * last], n);
    } else {
      assert Chunk(bs, n) == bs[8 * last..];
    }
  }

  lemma BitsOfAppend(a: seq<byte>, b: seq<byte>)
    ensures BitsOf(a + b) == BitsOf(a) + BitsOf(b)
  {
    var l, r := BitsOf(a + b), BitsOf(a) + BitsOf(b);
    forall i | 0 <= i < |l| ensures l[i] == r[i] {
      if i >= 8 * |a| {
        assert (i - 8 * |a|) / 8 == i / 8 - |a| && (i - 8 * |a|) % 8 == i % 8;
      }
    }
  }

  lemma BitIndex(bytes: seq<byte>, i: nat, k: nat)
    requires i < |bytes| && k < 8
    ensures 8 * i + 7 - k < |BitsOf(bytes)| && BitsOf(bytes)[8 * i + 7 - k] == Bit(bytes[i], k)
  {
    assert (8 * i + 7 - k) / 8 == i && (8 * i + 7 - k) % 8 == 7 - k;
  }

  /** A buffer is determined by its bits. */
  lemma BitsOfInjective(a: seq<byte>, b: seq<byte>)
    requires BitsOf(a) == BitsOf(b)
    ensures a == b
  {
    assert |BitsOf(a)| == 8 * |a| && |BitsOf(b)| == 8 * |b|;
    Pow2Of8();
    forall i | 0 <= i < |a| ensures a[i] == b[i] {
      forall k: nat | k < 8 ensures Bit(a[i], k) == Bit(b[i], k) {
        BitIndex(a, i, k);
        BitIndex(b, i, k);
      }
      DigitsDetermine(8, a[i], b[i]);
    }
  }

  lemma PackBitAt(bs: bits, i: nat)
    requires i < 8 * |Pack(bs)|
    ensures BitAt(Pack(bs), i) == (i < |bs| && bs[i])
  {
    hide Pack, PackByte;
    PackLength(bs);
    var chunk := Chunk(bs, i / 8);
    assert i == 8 * (i / 8) + i % 8;
    PackByteBits(chunk, i % 8);
    PackAt(bs, i / 8);
    assert BitAt(Pack(bs), i) == (i % 8 < |chunk| && chunk[i % 8]);
  }

  /** Packing keeps the bits and adds only the zero padding. */
  lemma {:induction false} PackBits(bs: bits)
    ensures |Pack(bs)| == (|bs| + 7) / 8
    ensures BitsOf(Pack(bs)) == bs + Zeros(Pad(|bs|))
  {
    hide Pack;
    PackLength(bs);
    var l, r := BitsOf(Pack(bs)), bs + Zeros(Pad(|bs|));
    assert |l| == |r|;
    forall i | 0 <= i < |l| ensures l[i] == r[i] {
      PackBitAt(bs, i);
    }
  }

  /** A buffer is the packing of the bits it starts with when only zeros follow them. */
  lemma {:induction false} PackUnique(bytes: seq<byte>, bs: bits)
    requires |bytes| == (|bs| + 7) / 8
    requires forall i: nat | i < 8 * |bytes| :: BitAt(bytes, i) == (i < |bs| && bs[i])
    ensures bytes == Pack(bs)
  {
    hide Pack;
    PackBits(bs);
    assert BitsOf(bytes) == bs + Zeros(Pad(|bs|));
    BitsOfInjective(bytes, Pack(bs));
  }

  /** Different bytes have different bits. */
  lemma DifferentBits(i: byte, j: byte)
    ensures BitsOf([i]) == BitsOf([j]) <==> i == j
  {
    if BitsOf([i]) == BitsOf([j]) {
      BitsOfInjective([i], [j]);
      assert [i][0] == [j][0];
    }
  }

  /** Binary digit k is the quotient by 2^k, modulo two. */
  lemma {:induction false} BitIsDigit(a: nat, k: nat)
    ensures Bit(a, k) <==> a / Pow2(k) % 2 == 1
  {
    if k > 0 {
      BitIsDigit(a / 2, k - 1);
      DivDiv(a, 2, Pow2(k - 1));
    }
  }

  /** Bit j of byte i, counted from the left, has the weight 2^(7 - j). */
  lemma MostSignificantFirst(bytes: seq<byte>, i: nat, j: nat)
    requires i < |bytes| && j < 8
    ensures 8 * i + j < |BitsOf(bytes)| && (BitsOf(bytes)[8 * i + j] <==> bytes[i] / Pow2(7 - j) % 2 == 1)
  {
    hide Bit, Pow2;
    BitIndex(bytes, i, 7 - j);
    BitIsDigit(bytes[i], 7 - j);
  }
}
