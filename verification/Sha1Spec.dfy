/** SHA-1 as FIPS 180-4 defines it: sections 4.1.1 (functions), 4.2.1 (constants), 5.1.1
    (padding), 5.3.1 (initial value), 6.1.2 (the hash with an 80-word schedule); and HMAC as
    section 2 of RFC 2104 defines it. Nothing here follows the code. */
module Sha1Spec {

  type Byte = bv8
  type Word = bv32

  function Rotl1(x: Word): Word { (x << 1) | (x >> 31) }

  function Rotl5(x: Word): Word { (x << 5) | (x >> 27) }

  function Rotl30(x: Word): Word { (x << 30) | (x >> 2) }

  function Xor3(x: Word, y: Word, z: Word): Word { x ^ y ^ z }

  function Ch(x: Word, y: Word, z: Word): Word { (x & y) ^ (!x & z) }

  function Parity(x: Word, y: Word, z: Word): Word { x ^ y ^ z }

  function Maj(x: Word, y: Word, z: Word): Word { (x & y) ^ (x & z) ^ (y & z) }

  function F(t: nat, x: Word, y: Word, z: Word): Word {
    if t < 20 then Ch(x, y, z) else if t < 40 then Parity(x, y, z)
    else if t < 60 then Maj(x, y, z) else Parity(x, y, z)
  }

  function K(t: nat): Word {
    if t < 20 then 0x5a827999 else if t < 40 then 0x6ed9eba1 else if t < 60 then 0x8f1bbcdc else 0xca62c1d6
  }

  /** A word is four bytes, the most significant first. */
  function BigEndian(b0: Byte, b1: Byte, b2: Byte, b3: Byte): Word {
    (b0 as Word << 24) | (b1 as Word << 16) | (b2 as Word << 8) | b3 as Word
  }

  /** The schedule beyond the block. */
  function Mingled(a: Word, b: Word, c: Word, d: Word): Word { Rotl1(a ^ b ^ c ^ d) }

  /** The message schedule of a block. */
  function W(block: seq<Byte>, t: nat): Word
    requires |block| == 64
  {
    if t < 16 then BigEndian(block[4 * t], block[4 * t + 1], block[4 * t + 2], block[4 * t + 3])
    else Mingled(W(block, t - 3), W(block, t - 8), W(block, t - 14), W(block, t - 16))
  }

  /** The five working variables, and the hash value. */
  datatype Regs = Regs(a: Word, b: Word, c: Word, d: Word, e: Word)

  const IV := Regs(0x67452301, 0xefcdab89, 0x98badcfe, 0x10325476, 0xc3d2e1f0)

  function Sum5(a: Word, b: Word, c: Word, d: Word, e: Word): Word { a + b + c + d + e }

  function Step(r: Regs, t: nat, w: Word): Regs {
    Regs(Sum5(Rotl5(r.a), F(t, r.b, r.c, r.d), r.e, K(t), w), r.a, Rotl30(r.b), r.c, r.d)
  }

  function Rounds(r: Regs, block: seq<Byte>, t: nat): Regs
    requires |block| == 64
  {
    if t == 0 then r else Step(Rounds(r, block, t - 1), t - 1, W(block, t - 1))
  }

  function Added(h: Regs, r: Regs): Regs {
    Regs(h.a + r.a, h.b + r.b, h.c + r.c, h.d + r.d, h.e + r.e)
  }

  function Compress(h: Regs, block: seq<Byte>): Regs
    requires |block| == 64
  {
    Added(h, Rounds(h, block, 80))
  }

  /** All blocks of a string of whole blocks. */
  function Absorb(h: Regs, s: seq<Byte>): Regs
    requires |s| % 64 == 0
    decreases |s|
  {
    if s == [] then h else Absorb(Compress(h, s[..64]), s[64..])
  }

  function AsByte(n: nat): Byte
    requires n < 256
  {
    n as Byte
  }

  function ByteOf(n: nat): Byte {
    AsByte(n % 256)
  }

  /** A 64-bit number, the most significant byte first. */
  function Bytes64(n: nat): (r: seq<Byte>)
    ensures |r| == 8
  {
    [ByteOf(n / 0x1_00_0000_0000_0000), ByteOf(n / 0x1_0000_0000_0000), ByteOf(n / 0x1_00_0000_0000),
     ByteOf(n / 0x1_0000_0000), ByteOf(n / 0x1_00_0000), ByteOf(n / 0x1_0000), ByteOf(n / 0x1_00), ByteOf(n)]
  }

  function Zeros(n: nat): (r: seq<Byte>)
    ensures |r| == n
  {
    seq(n, _ => 0)
  }

  /** The least number of zero bytes after which, and the bit 1, the length is 56 modulo 64. */
  function Gap(n: nat): (k: nat)
    ensures k < 64 && (n + 1 + k) % 64 == 56 && (n + 9 + k) % 64 == 0
  {
    (55 - n) % 64
  }

  /** The length in bits modulo 2^64. */
  function LengthOctets(n: nat): (r: seq<Byte>)
    ensures |r| == 8
  {
    Bytes64(8 * n % 0x1_0000_0000_0000_0000)
  }

  /** The message, the bit 1, zeros, and the length field. */
  function Padded(m: seq<Byte>): (r: seq<Byte>)
    ensures |r| % 64 == 0
  {
    var r := m + [0x80] + Zeros(Gap(|m|)) + LengthOctets(|m|);
    assert |r| == |m| + 9 + Gap(|m|);
    r
  }

  function WordBytes(w: Word): (r: seq<Byte>)
    ensures |r| == 4
  {
    [(w >> 24) as Byte, ((w >> 16) & 0xff) as Byte, ((w >> 8) & 0xff) as Byte, (w & 0xff) as Byte]
  }

  function Digest(r: Regs): (d: seq<Byte>)
    ensures |d| == 20
  {
    WordBytes(r.a) + WordBytes(r.b) + WordBytes(r.c) + WordBytes(r.d) + WordBytes(r.e)
  }

  function Sha1(m: seq<Byte>): (d: seq<Byte>)
    ensures |d| == 20
  {
    Digest(Absorb(IV, Padded(m)))
  }

  // ---------- HMAC ----------

  function Xor(a: Byte, b: Byte): Byte { a ^ b }

  function Xored(s: seq<Byte>, b: Byte): (r: seq<Byte>)
    ensures |r| == |s|
  {
    seq(|s|, i requires 0 <= i < |s| => Xor(s[i], b))
  }

  /** The key as a block: hashed if it is longer, then filled up with zeros. */
  function KeyBlock(key: seq<Byte>): (k: seq<Byte>)
    ensures |k| == 64
  {
    if |key| > 64 then Sha1(key) + Zeros(44) else key + Zeros(64 - |key|)
  }

  function Hmac(key: seq<Byte>, m: seq<Byte>): (d: seq<Byte>)
    ensures |d| == 20
  {
    Sha1(Xored(KeyBlock(key), 0x5c) + Sha1(Xored(KeyBlock(key), 0x36) + m))
  }

  // ---------- laws ----------

  lemma {:induction false} AbsorbAppend(h: Regs, s: seq<Byte>, t: seq<Byte>)
    requires |s| % 64 == 0 && |t| % 64 == 0
    ensures Absorb(h, s + t) == Absorb(Absorb(h, s), t)
    decreases |s|
  {
    hide Compress;
    if s == [] {
      assert s + t == t;
    } else {
      assert (s + t)[..64] == s[..64] && (s + t)[64..] == s[64..] + t;
      AbsorbAppend(Compress(h, s[..64]), s[64..], t);
    }
  }

  lemma AbsorbOne(h: Regs, s: seq<Byte>, block: seq<Byte>)
    requires |s| % 64 == 0 && |block| == 64
    ensures Absorb(h, s + block) == Compress(Absorb(h, s), block)
  {
    hide Compress;
    AbsorbAppend(h, s, block);
    assert block[..64] == block && block[64..] == [];
  }
}
