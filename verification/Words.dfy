/** Byte strings, machine-word ranges, big-endian integers and XOR. */
module Words {

  newtype byte = x: int | 0 <= x < 256

  type Bytes = seq<byte>

  const U32_LIMIT: nat := 0x1_0000_0000
  const U64_LIMIT: nat := 0x1_0000_0000_0000_0000
  const U64_MAX: nat := U64_LIMIT - 1
  const U128_LIMIT: nat := 0x1_0000_0000_0000_0000_0000_0000_0000_0000

  type u32 = x: nat | x < U32_LIMIT
  type u64 = x: nat | x < U64_LIMIT
  type u128 = x: nat | x < U128_LIMIT

  /** The fixed-size arrays of the source: 32-byte keys and digests, 12-byte nonces. */
  const ZERO32: Bytes := Zeros(32)

  type Bytes32 = b: Bytes | |b| == 32 witness Zeros(32)
  type Nonce = b: Bytes | |b| == 12 witness Zeros(12)

  function Zeros(n: nat): (b: Bytes)
    ensures |b| == n
  {
    seq(n, i => 0)
  }

  /** The bytes of an ASCII literal. */
  function Ascii(s: string): (b: Bytes)
    ensures |b| == |s|
  {
    seq(|s|, i requires 0 <= i < |s| => (s[i] as int % 256) as byte)
  }

  // --------------------------------------------------------------------------
  // Big-endian integers
  // --------------------------------------------------------------------------

  function Pow256(width: nat): (p: nat)
    ensures p > 0
  {
    if width == 0 then 1 else 256 * Pow256(width - 1)
  }

  /** The `width` low-order bytes of `n`, most significant first. */
  function BigEndian(n: nat, width: nat): (b: Bytes)
    ensures |b| == width
  {
    if width == 0 then [] else BigEndian(n / 256, width - 1) + [(n % 256) as byte]
  }

  function FromBigEndian(b: Bytes): (n: nat)
    ensures n < Pow256(|b|)
  {
    if b == [] then 0 else FromBigEndian(b[..|b| - 1]) * 256 + b[|b| - 1] as nat
  }

  lemma {:induction false} DecodeEncode(n: nat, width: nat)
    requires n < Pow256(width)
    ensures FromBigEndian(BigEndian(n, width)) == n
  {
    if width > 0 {
      DecodeEncode(n / 256, width - 1);
      var b := BigEndian(n, width);
      assert b[..|b| - 1] == BigEndian(n / 256, width - 1);
    }
  }

  lemma {:induction false} EncodeDecode(b: Bytes)
    ensures BigEndian(FromBigEndian(b), |b|) == b
  {
    if b != [] {
      var init, last := b[..|b| - 1], b[|b| - 1];
      EncodeDecode(init);
      assert FromBigEndian(b) / 256 == FromBigEndian(init);
      assert FromBigEndian(b) % 256 == last as int;
      assert b == init + [last];
    }
  }

  lemma {:induction false} BigEndianZero(width: nat)
    ensures BigEndian(0, width) == Zeros(width)
  {
    if width > 0 {
      BigEndianZero(width - 1);
    }
  }

  /** The most significant byte comes first. */
  lemma {:induction false} MostSignificantFirst(b: Bytes)
    requires b != []
    ensures FromBigEndian(b) == FromBigEndian(b[1..]) + b[0] as nat * Pow256(|b| - 1)
    decreases |b|
  {
    var init, last := b[..|b| - 1], b[|b| - 1];
    if |b| > 1 {
      MostSignificantFirst(init);
      assert b[1..][..|b| - 2] == init[1..];
      var h, p := b[0] as nat, Pow256(|b| - 2);
      assert h * p * 256 == h * (256 * p);
    }
  }

  lemma WordLimits()
    ensures Pow256(4) == U32_LIMIT && Pow256(8) == U64_LIMIT && Pow256(16) == U128_LIMIT
  {
    assert Pow256(2) == 0x1_0000;
    assert Pow256(4) == U32_LIMIT;
    assert Pow256(6) == 0x1_0000_0000_0000;
    assert Pow256(8) == U64_LIMIT;
    assert Pow256(10) == U64_LIMIT * 0x1_0000;
    assert Pow256(12) == U64_LIMIT * 0x1_0000_0000;
    assert Pow256(14) == U64_LIMIT * 0x1_0000_0000_0000;
    assert Pow256(16) == U128_LIMIT;
  }

  function Be32(n: u32): (b: Bytes)
    ensures |b| == 4
    ensures ReadBe32(b) == n
  {
    WordLimits();
    DecodeEncode(n, 4);
    BigEndian(n, 4)
  }

  function Be64(n: u64): (b: Bytes)
    ensures |b| == 8
    ensures ReadBe64(b) == n
  {
    WordLimits();
    DecodeEncode(n, 8);
    BigEndian(n, 8)
  }

  function ReadBe32(b: Bytes): u32
    requires |b| == 4
  {
    WordLimits();
    FromBigEndian(b)
  }

  function ReadBe64(b: Bytes): u64
    requires |b| == 8
  {
    WordLimits();
    FromBigEndian(b)
  }

  lemma Be32OfRead(b: Bytes)
    requires |b| == 4
    ensures Be32(ReadBe32(b)) == b
  {
    EncodeDecode(b);
  }

  lemma Be64OfRead(b: Bytes)
    requires |b| == 8
    ensures Be64(ReadBe64(b)) == b
  {
    EncodeDecode(b);
  }

  /** The 16-byte big-endian form of a 128-bit word. */
  function Be128(n: u128): (b: Bytes)
    ensures |b| == 16
    ensures ReadBe128(b) == n
  {
    WordLimits();
    DecodeEncode(n, 16);
    BigEndian(n, 16)
  }

  function ReadBe128(b: Bytes): u128
    requires |b| == 16
  {
    WordLimits();
    FromBigEndian(b)
  }

  // --------------------------------------------------------------------------
  // Concatenation
  // --------------------------------------------------------------------------

  /** Equal concatenations with equally long first parts have equal parts. */
  lemma SplitEqual<T>(a: seq<T>, x: seq<T>, b: seq<T>, y: seq<T>)
    requires a + x == b + y && |a| == |b|
    ensures a == b && x == y
  {
    assert a == (a + x)[..|a|] && b == (b + y)[..|b|];
    assert x == (a + x)[|a|..] && y == (b + y)[|b|..];
  }

  // --------------------------------------------------------------------------
  // XOR
  // --------------------------------------------------------------------------

  function Pow2(n: nat): (p: nat)
    ensures p > 0
  {
    if n == 0 then 1 else 2 * Pow2(n - 1)
  }

  /** Exclusive or of the `width` low binary digits. */
  function XorBits(a: nat, b: nat, width: nat): (c: nat)
    ensures c < Pow2(width)
  {
    if width == 0 then 0 else 2 * XorBits(a / 2, b / 2, width - 1) + XorDigit(a, b)
  }

  function XorDigit(a: nat, b: nat): (d: nat)
    ensures d <= 1
  {
    if a % 2 == b % 2 then 0 else 1
  }

  lemma XorBitsHalves(a: nat, b: nat, width: nat)
    requires width > 0
    ensures XorBits(a, b, width) / 2 == XorBits(a / 2, b / 2, width - 1)
    ensures XorBits(a, b, width) % 2 == XorDigit(a, b)
  {}

  function XorByte(a: byte, b: byte): byte {
    assert Pow2(8) == 256;
    XorBits(a as nat, b as nat, 8) as byte
  }

  lemma {:induction false} XorBitsCommutes(a: nat, b: nat, width: nat)
    ensures XorBits(a, b, width) == XorBits(b, a, width)
  {
    if width > 0 {
      XorBitsCommutes(a / 2, b / 2, width - 1);
    }
  }

  lemma {:induction false} XorBitsAssociates(a: nat, b: nat, c: nat, width: nat)
    ensures XorBits(a, XorBits(b, c, width), width) == XorBits(XorBits(a, b, width), c, width)
  {
    if width > 0 {
      var ab, bc := XorBits(a, b, width), XorBits(b, c, width);
      XorBitsHalves(a, b, width);
      XorBitsHalves(b, c, width);
      XorBitsAssociates(a / 2, b / 2, c / 2, width - 1);
      assert XorDigit(a, bc) == XorDigit(ab, c);
      assert XorBits(a, bc, width) == 2 * XorBits(a / 2, bc / 2, width - 1) + XorDigit(a, bc);
      assert XorBits(ab, c, width) == 2 * XorBits(ab / 2, c / 2, width - 1) + XorDigit(ab, c);
    }
  }

  lemma {:induction false} XorBitsCancels(a: nat, b: nat, width: nat)
    requires b < Pow2(width)
    ensures XorBits(a, XorBits(a, b, width), width) == b
  {
    if width > 0 {
      XorBitsCancels(a / 2, b / 2, width - 1);
    }
  }

  lemma {:induction false} XorBitsZero(a: nat, width: nat)
    requires a < Pow2(width)
    ensures XorBits(a, 0, width) == a
  {
    if width > 0 {
      XorBitsZero(a / 2, width - 1);
    }
  }

  lemma XorByteCommutes(a: byte, b: byte)
    ensures XorByte(a, b) == XorByte(b, a)
  {
    XorBitsCommutes(a as nat, b as nat, 8);
  }

  lemma XorByteAssociates(a: byte, b: byte, c: byte)
    ensures XorByte(a, XorByte(b, c)) == XorByte(XorByte(a, b), c)
  {
    XorBitsAssociates(a as nat, b as nat, c as nat, 8);
    hide XorBits;
  }

  lemma XorByteCancels(a: byte, b: byte)
    ensures XorByte(a, XorByte(a, b)) == b
  {
    assert Pow2(8) == 256;
    XorBitsCancels(a as nat, b as nat, 8);
    hide XorBits;
  }

  function Xor(a: Bytes, b: Bytes): (c: Bytes)
    requires |a| == |b|
    ensures |c| == |a|
  {
    seq(|a|, i requires 0 <= i < |a| => XorByte(a[i], b[i]))
  }

  /** Zeros leave every byte string as it is. */
  lemma XorZeros(a: Bytes)
    ensures Xor(a, Zeros(|a|)) == a && Xor(Zeros(|a|), a) == a
  {
    assert Pow2(8) == 256;
    forall i | 0 <= i < |a| ensures Xor(a, Zeros(|a|))[i] == a[i] {
      XorBitsZero(a[i] as nat, 8);
    }
    XorCommutes(a, Zeros(|a|));
  }

  lemma XorCommutes(a: Bytes, b: Bytes)
    requires |a| == |b|
    ensures Xor(a, b) == Xor(b, a)
  {
    forall i | 0 <= i < |a| ensures Xor(a, b)[i] == Xor(b, a)[i] {
      XorByteCommutes(a[i], b[i]);
    }
  }

  lemma XorAssociates(a: Bytes, b: Bytes, c: Bytes)
    requires |a| == |b| == |c|
    ensures Xor(a, Xor(b, c)) == Xor(Xor(a, b), c)
  {
    forall i | 0 <= i < |a| ensures Xor(a, Xor(b, c))[i] == Xor(Xor(a, b), c)[i] {
      XorByteAssociates(a[i], b[i], c[i]);
    }
  }

  lemma XorCancels(a: Bytes, b: Bytes)
    requires |a| == |b|
    ensures Xor(a, Xor(a, b)) == b
  {
    forall i | 0 <= i < |a| ensures Xor(a, Xor(a, b))[i] == b[i] {
      XorByteCancels(a[i], b[i]);
    }
  }
}
