/** The known answer of FIPS 180-4 for "abc", and laws that tie the constants and rotations of SHA-1 to
    where they come from. */
module Sha1Known {
  import opened Sha1Spec
  import opened Sha1Rounds

  // ---------- constants and rotations ----------

  /** The number whose square root gives the constant of a round. */
  function Radicand(t: nat): nat {
    if t < 20 then 2 else if t < 40 then 3 else if t < 60 then 5 else 10
  }

  /** The constants are the integer parts of 2^30 times the square roots of 2, 3, 5 and 10. */
  lemma RoundConstants(t: nat)
    ensures var k := K(t) as nat; k * k <= Radicand(t) * 0x1000_0000_0000_0000 < (k + 1) * (k + 1)
  {
    var k := K(t) as nat;
    assert k == if t < 20 then 0x5a827999 else if t < 40 then 0x6ed9eba1 else if t < 60 then 0x8f1bbcdc else 0xca62c1d6;
  }

  /** The bytes of the initial value, least significant first, count up, down, and up again. */
  lemma InitialBytes()
    ensures LittleBytes(IV.a) + LittleBytes(IV.b) == [0x01, 0x23, 0x45, 0x67, 0x89, 0xab, 0xcd, 0xef]
    ensures LittleBytes(IV.c) + LittleBytes(IV.d) == [0xfe, 0xdc, 0xba, 0x98, 0x76, 0x54, 0x32, 0x10]
    ensures LittleBytes(IV.e) == [0xf0, 0xe1, 0xd2, 0xc3]
  {
  }

  /** A rotation by n multiplies by 2^n modulo 2^32, and adds what has gone over. */
  lemma RotationBy1(x: Word)
    ensures Rotl1(x) == x * 2 + x / 0x8000_0000
  {
  }

  lemma RotationBy5(x: Word)
    ensures Rotl5(x) == x * 32 + x / 0x800_0000
  {
  }

  lemma RotationBy30(x: Word)
    ensures Rotl30(x) == x * 0x4000_0000 + x / 4
  {
  }

  // ---------- padding ----------

  /** A number by its digits to the base 256, the most significant one first. */
  function Value(d: seq<nat>): nat {
    if d == [] then 0 else 256 * Value(d[..|d| - 1]) + d[|d| - 1]
  }

  lemma ValueStep(d: seq<nat>, x: nat)
    ensures Value(d + [x]) == 256 * Value(d) + x
  {
    assert (d + [x])[..|d|] == d;
  }

  lemma ValueFour(x: nat, a: nat, b: nat, c: nat, d: nat, s: seq<nat>)
    requires Value(s) == x
    ensures Value(s + [a, b, c, d]) == 256 * (256 * (256 * (256 * x + a) + b) + c) + d
  {
    hide Value;
    ValueStep(s, a);
    ValueStep(s + [a], b);
    ValueStep(s + [a] + [b], c);
    ValueStep(s + [a] + [b] + [c], d);
    assert s + [a] + [b] + [c] + [d] == s + [a, b, c, d];
  }

  lemma Digit0(n: nat)
    ensures n == 256 * (n / 0x1_00) + n % 256
  {
  }

  lemma Digit1(n: nat)
    ensures n / 0x1_00 == 256 * (n / 0x1_0000) + n / 0x1_00 % 256
  {
  }

  lemma Digit2(n: nat)
    ensures n / 0x1_0000 == 256 * (n / 0x1_00_0000) + n / 0x1_0000 % 256
  {
  }

  lemma Digit3(n: nat)
    ensures n / 0x1_00_0000 == 256 * (n / 0x1_0000_0000) + n / 0x1_00_0000 % 256
  {
  }

  lemma Digit4(n: nat)
    ensures n / 0x1_0000_0000 == 256 * (n / 0x1_00_0000_0000) + n / 0x1_0000_0000 % 256
  {
  }

  lemma Digit5(n: nat)
    ensures n / 0x1_00_0000_0000 == 256 * (n / 0x1_0000_0000_0000) + n / 0x1_00_0000_0000 % 256
  {
  }

  lemma Digit6(n: nat)
    ensures n / 0x1_0000_0000_0000 == 256 * (n / 0x1_00_0000_0000_0000) + n / 0x1_0000_0000_0000 % 256
  {
  }

  /** The length field holds the digits of the length in bits. */
  lemma LengthDigits(n: nat) returns (d: seq<nat>)
    ensures |d| == 8 && Value(d) == 8 * n % 0x1_0000_0000_0000_0000
    ensures forall i | 0 <= i < 8 :: d[i] < 256 && LengthOctets(n)[i] == AsByte(d[i])
  {
    hide Value, AsByte;
    var l := 8 * n % 0x1_0000_0000_0000_0000;
    d := DigitsOf(l);
  }

  lemma DigitsOf(n: nat) returns (d: seq<nat>)
    requires n < 0x1_0000_0000_0000_0000
    ensures |d| == 8 && Value(d) == n
    ensures forall i | 0 <= i < 8 :: d[i] < 256 && Bytes64(n)[i] == AsByte(d[i])
  {
    hide Value, AsByte;
    Digit0(n);
    Digit1(n);
    Digit2(n);
    Digit3(n);
    Digit4(n);
    Digit5(n);
    Digit6(n);
    var q7, q6, q5, q4 := n / 0x1_00_0000_0000_0000, n / 0x1_0000_0000_0000, n / 0x1_00_0000_0000, n / 0x1_0000_0000;
    var q3, q2, q1 := n / 0x1_00_0000, n / 0x1_0000, n / 0x1_00;
    var high, low := [q7, q6 % 256, q5 % 256, q4 % 256], [q3 % 256, q2 % 256, q1 % 256, n % 256];
    d := high + low;
    HighValue(q7, q6 % 256, q5 % 256, q4 % 256);
    ValueFour(q4, q3 % 256, q2 % 256, q1 % 256, n % 256, high);
    EightDigits(n, d);
  }

  lemma HighValue(a: nat, b: nat, c: nat, d: nat)
    ensures Value([a, b, c, d]) == 256 * (256 * (256 * a + b) + c) + d
  {
    hide Value;
    assert Value([]) == 0 by { ValueNone(); }
    ValueFour(0, a, b, c, d, []);
    assert [] + [a, b, c, d] == [a, b, c, d];
  }

  lemma ValueNone()
    ensures Value([]) == 0
  {
  }

  lemma EightDigits(n: nat, d: seq<nat>)
    requires n < 0x1_0000_0000_0000_0000
    requires d == [n / 0x1_00_0000_0000_0000, n / 0x1_0000_0000_0000 % 256, n / 0x1_00_0000_0000 % 256,
                   n / 0x1_0000_0000 % 256, n / 0x1_00_0000 % 256, n / 0x1_0000 % 256, n / 0x1_00 % 256, n % 256]
    ensures forall i | 0 <= i < 8 :: d[i] < 256 && Bytes64(n)[i] == AsByte(d[i])
  {
    hide AsByte;
  }

  /** The padded message: the message, a one bit, the fewest zeros, and the length field. */
  lemma PaddedIs(m: seq<Byte>)
    ensures var p := Padded(m);
      && |p| % 64 == 0 && |m| + 9 <= |p| < |m| + 73 && m + [0x80] <= p
      && (forall i | |m| < i < |p| - 8 :: p[i] == 0)
      && p[|p| - 8..] == LengthOctets(|m|)
  {
    hide LengthOctets;
    var p := Padded(m);
    assert p == m + [0x80] + (Zeros(Gap(|m|)) + LengthOctets(|m|));
  }

  // ---------- HMAC ----------

  /** Section 2 of RFC 2104, octet by octet, for a key of at most one block. */
  lemma HmacIs(key: seq<Byte>, m: seq<Byte>, inner: seq<Byte>, outer: seq<Byte>)
    requires |key| <= 64 && |inner| == |outer| == 64
    requires forall j | 0 <= j < 64 :: inner[j] == (if j < |key| then key[j] else 0) ^ 0x36
    requires forall j | 0 <= j < 64 :: outer[j] == (if j < |key| then key[j] else 0) ^ 0x5c
    ensures Hmac(key, m) == Sha1(outer + Sha1(inner + m))
  {
    hide Sha1;
    assert inner == Xored(KeyBlock(key), 0x36);
    assert outer == Xored(KeyBlock(key), 0x5c);
  }

  /** A longer key stands for its hash. */
  lemma HmacLongKey(key: seq<Byte>, m: seq<Byte>)
    requires |key| > 64
    ensures Hmac(key, m) == Hmac(Sha1(key), m)
  {
    hide Sha1;
    assert KeyBlock(Sha1(key)) == KeyBlock(key);
  }

  // ---------- "abc" ----------

  type Block = s: seq<Byte> | |s| == 64 witness Zeros(64)

  const MESSAGE: seq<Byte> := [0x61, 0x62, 0x63]

  /** The one block of the padded message. */
  const ABC: Block := MESSAGE + [0x80] + Zeros(59) + [0x18]

  lemma SmallNumber(n: nat)
    requires n < 256
    ensures ByteOf(n) == AsByte(n) && ByteOf(n / 0x1_00) == AsByte(0) && ByteOf(n / 0x1_0000) == AsByte(0)
    ensures ByteOf(n / 0x1_00_0000) == AsByte(0) && ByteOf(n / 0x1_0000_0000) == AsByte(0)
    ensures ByteOf(n / 0x1_00_0000_0000) == AsByte(0) && ByteOf(n / 0x1_0000_0000_0000) == AsByte(0)
    ensures ByteOf(n / 0x1_00_0000_0000_0000) == AsByte(0)
  {
    hide AsByte;
  }

  lemma SmallLength(n: nat)
    requires n < 32
    ensures LengthOctets(n)
      == [AsByte(0), AsByte(0), AsByte(0), AsByte(0), AsByte(0), AsByte(0), AsByte(0), AsByte(8 * n)]
  {
    hide AsByte, ByteOf;
    SmallNumber(8 * n);
  }

  lemma AbcLength()
    ensures LengthOctets(3) == Zeros(7) + [0x18] && Gap(3) == 52
  {
    hide LengthOctets;
    SmallLength(3);
    assert AsByte(0) == 0 && AsByte(24) == 0x18;
  }

  lemma AbcPadded()
    ensures Padded(MESSAGE) == ABC
  {
    hide LengthOctets, Gap;
    AbcLength();
    assert Zeros(52) + (Zeros(7) + [0x18]) == Zeros(59) + [0x18];
  }

  lemma WordsTo16()
    ensures W(ABC, 0) == 0x61626380 && W(ABC, 1) == 0x00000000 && W(ABC, 2) == 0x00000000 && W(ABC, 3) == 0x00000000
    ensures W(ABC, 4) == 0x00000000 && W(ABC, 5) == 0x00000000 && W(ABC, 6) == 0x00000000 && W(ABC, 7) == 0x00000000
    ensures W(ABC, 8) == 0x00000000 && W(ABC, 9) == 0x00000000 && W(ABC, 10) == 0x00000000 && W(ABC, 11) == 0x00000000
    ensures W(ABC, 12) == 0x00000000 && W(ABC, 13) == 0x00000000 && W(ABC, 14) == 0x00000000 && W(ABC, 15) == 0x00000018
  {
  }

  lemma WordsTo32()
    ensures W(ABC, 16) == 0xc2c4c700 && W(ABC, 17) == 0x00000000 && W(ABC, 18) == 0x00000030 && W(ABC, 19) == 0x85898e01
    ensures W(ABC, 20) == 0x00000000 && W(ABC, 21) == 0x00000060 && W(ABC, 22) == 0x0b131c03 && W(ABC, 23) == 0x00000030
    ensures W(ABC, 24) == 0x85898ec1 && W(ABC, 25) == 0x16263806 && W(ABC, 26) == 0x00000000 && W(ABC, 27) == 0x00000180
    ensures W(ABC, 28) == 0x2c4c700c && W(ABC, 29) == 0x000000f0 && W(ABC, 30) == 0x93afb507 && W(ABC, 31) == 0x5898e048
  {
    WordsTo16();
  }

  lemma WordsTo48()
    ensures W(ABC, 32) == 0x8e9a9202 && W(ABC, 33) == 0x00000600 && W(ABC, 34) == 0xb131c0f0 && W(ABC, 35) == 0x16263bc6
    ensures W(ABC, 36) == 0x4ebed41e && W(ABC, 37) == 0x626380a1 && W(ABC, 38) == 0x16263806 && W(ABC, 39) == 0x000018c0
    ensures W(ABC, 40) == 0xd2e138c4 && W(ABC, 41) == 0x00000f00 && W(ABC, 42) == 0x3afb5079 && W(ABC, 43) == 0x898e04e5
    ensures W(ABC, 44) == 0xe2ba3c2b && W(ABC, 45) == 0x000060c0 && W(ABC, 46) == 0x053a37cd && W(ABC, 47) == 0x74458547
  {
    WordsTo32();
  }

  lemma WordsTo64()
    ensures W(ABC, 48) == 0xda9415ed && W(ABC, 49) == 0x26380a16 && W(ABC, 50) == 0x626383a1 && W(ABC, 51) == 0x4ebf54de
    ensures W(ABC, 52) == 0x3835b44b && W(ABC, 53) == 0x0000f600 && W(ABC, 54) == 0x1e84c7a3 && W(ABC, 55) == 0x98e04d98
    ensures W(ABC, 56) == 0x651d16a0 && W(ABC, 57) == 0x62658ca1 && W(ABC, 58) == 0x458544d6 && W(ABC, 59) == 0x44584cb7
    ensures W(ABC, 60) == 0x7ba06619 && W(ABC, 61) == 0x6380aea2 && W(ABC, 62) == 0x0ae55269 && W(ABC, 63) == 0x627b49a1
  {
    WordsTo48();
  }

  lemma WordsTo80()
    ensures W(ABC, 64) == 0x7cd45c9d && W(ABC, 65) == 0x000f0000 && W(ABC, 66) == 0xfb50753a && W(ABC, 67) == 0xec6765e8
    ensures W(ABC, 68) == 0xba3c2be2 && W(ABC, 69) == 0x0060c000 && W(ABC, 70) == 0x3a37cd05 && W(ABC, 71) == 0x458546f4
    ensures W(ABC, 72) == 0xb8599dd6 && W(ABC, 73) == 0x380a1a26 && W(ABC, 74) == 0x01e02203 && W(ABC, 75) == 0xe7cc3456
    ensures W(ABC, 76) == 0xe6e60b69 && W(ABC, 77) == 0x00f60a00 && W(ABC, 78) == 0x5795ef4f && W(ABC, 79) == 0x822e0879
  {
    WordsTo64();
  }

  /** What a round puts into the first variable. */
  function NewWord(r: Regs, t: nat, w: Word): Word {
    Sum5(Rotl5(r.a), F(t, r.b, r.c, r.d), r.e, K(t), w)
  }

  lemma Next(t: nat, r: Regs, x: Word) returns (s: Regs)
    requires Rounds(IV, ABC, t) == r && x == NewWord(r, t, W(ABC, t))
    ensures s == Regs(x, r.a, Rotl30(r.b), r.c, r.d) && Rounds(IV, ABC, t + 1) == s
  {
    hide W;
    s := Step(r, t, W(ABC, t));
  }

  /** Four rounds, by the new words that they give. */
  lemma Four(t: nat, r: Regs, x: Word, y: Word, z: Word, u: Word) returns (s: Regs)
    requires Rounds(IV, ABC, t) == r
    requires x == NewWord(r, t, W(ABC, t))
    requires y == NewWord(Regs(x, r.a, Rotl30(r.b), r.c, r.d), t + 1, W(ABC, t + 1))
    requires z == NewWord(Regs(y, x, Rotl30(r.a), Rotl30(r.b), r.c), t + 2, W(ABC, t + 2))
    requires u == NewWord(Regs(z, y, Rotl30(x), Rotl30(r.a), Rotl30(r.b)), t + 3, W(ABC, t + 3))
    ensures s == Regs(u, z, Rotl30(y), Rotl30(x), Rotl30(r.a)) && Rounds(IV, ABC, t + 4) == s
  {
    hide W, NewWord, Rotl30, Rounds;
    s := Next(t, r, x);
    s := Next(t + 1, s, y);
    s := Next(t + 2, s, z);
    s := Next(t + 3, s, u);
  }

  lemma RoundsTo0()
    ensures Rounds(IV, ABC, 0) == IV
  {
  }

  lemma RoundsTo16()
    ensures Rounds(IV, ABC, 16) == Regs(0x20bdd62f, 0x196bee77, 0x644a3da5, 0x1181ed99, 0x18c623f9)
  {
    hide Rounds;
    WordsTo16();
    RoundsTo0();
    var s := Four(0, IV, 0x0116fc33, 0x8990536d, 0xa1390f08, 0xcdd8e11b);
    s := Four(4, s, 0xcfd499de, 0x3fc7ca40, 0x993e30c1, 0x9e8c07d4);
    s := Four(8, s, 0x4b6ae328, 0x8351f929, 0xfbda9e89, 0x63188fe4);
    s := Four(12, s, 0x4607b664, 0x9128f695, 0x196bee77, 0x20bdd62f);
  }

  lemma RoundsTo32()
    ensures Rounds(IV, ABC, 32) == Regs(0x3b845d33, 0x1267b407, 0x717eebd7, 0xa0dc2d4b, 0xd2aa1365)
  {
    hide Rounds;
    WordsTo32();
    RoundsTo16();
    var r := Regs(0x20bdd62f, 0x196bee77, 0x644a3da5, 0x1181ed99, 0x18c623f9);
    var s := Four(16, r, 0x4e925823, 0x82aa6728, 0xdc64901d, 0xfd9e1d7d);
    s := Four(20, s, 0x1a37b0ca, 0x33a23bfc, 0x21283486, 0xd541f12d);
    s := Four(24, s, 0xc7567dc6, 0x48413ba4, 0xbe35fbd5, 0x4aa84d97);
    s := Four(28, s, 0x8370b52e, 0xc5fbaf5d, 0x1267b407, 0x3b845d33);
  }

  lemma RoundsTo48()
    ensures Rounds(IV, ABC, 48) == Regs(0xbead02ca, 0xa01b846c, 0x8714787c, 0x503ca382, 0xfb86c6ab)
  {
    hide Rounds;
    WordsTo48();
    RoundsTo32();
    var r := Regs(0x3b845d33, 0x1267b407, 0x717eebd7, 0xa0dc2d4b, 0xd2aa1365);
    var s := Four(32, r, 0x046faa0a, 0x2c0ebc11, 0x21796ad4, 0xdcbbb0cb);
    s := Four(36, s, 0x0f511fd8, 0xdc63973f, 0x4c986405, 0x32de1cba);
    s := Four(40, s, 0xfc87dedf, 0x970a0d5c, 0x7f193dc5, 0xee1b1aaf);
    s := Four(44, s, 0x40f28e09, 0x1c51e1f2, 0xa01b846c, 0xbead02ca);
  }

  lemma RoundsTo64()
    ensures Rounds(IV, ABC, 64) == Regs(0x6b61c9e1, 0xb66c020b, 0x9523272c, 0xf5d5b051, 0x8fd4b796)
  {
    hide Rounds;
    WordsTo64();
    RoundsTo48();
    var r := Regs(0xbead02ca, 0xa01b846c, 0x8714787c, 0x503ca382, 0xfb86c6ab);
    var s := Four(48, r, 0xbaf39337, 0x120731c5, 0x641db2ce, 0x3847ad66);
    s := Four(52, s, 0xe490436d, 0x27e9f1d8, 0x7b71f76d, 0x5e6456af);
    s := Four(56, s, 0xc846093f, 0xd262ff50, 0x09d785fd, 0x3f52de5a);
    s := Four(60, s, 0xd756c147, 0x548c9cb2, 0xb66c020b, 0x6b61c9e1);
  }

  lemma RoundsTo80()
    ensures Rounds(IV, ABC, 80) == Regs(0x42541b35, 0x5738d5e1, 0x21834873, 0x681e6df6, 0xd8fdf6ad)
  {
    hide Rounds;
    WordsTo80();
    RoundsTo64();
    var r := Regs(0x6b61c9e1, 0xb66c020b, 0x9523272c, 0xf5d5b051, 0x8fd4b796);
    var s := Four(64, r, 0x19dfa7ac, 0x101655f9, 0x0c3df2b4, 0x78dd4d2b);
    s := Four(68, s, 0x497093c0, 0x3f2588c2, 0xc199f8c7, 0x39859de7);
    s := Four(72, s, 0xedb42de4, 0x11793f6f, 0x5ee76897, 0x63f7dab7);
    s := Four(76, s, 0xa079b7d9, 0x860d21cc, 0x5738d5e1, 0x42541b35);
  }

  lemma AbcCompressed()
    ensures Compress(IV, ABC) == Regs(0xa9993e36, 0x4706816a, 0xba3e2571, 0x7850c26c, 0x9cd0d89d)
  {
    hide Rounds;
    RoundsTo80();
  }

  /** SHA-1 of "abc" is a9993e36 4706816a ba3e2571 7850c26c 9cd0d89d. */
  lemma AbcDigest()
    ensures Sha1(MESSAGE) == [0xa9, 0x99, 0x3e, 0x36, 0x47, 0x06, 0x81, 0x6a, 0xba, 0x3e,
                              0x25, 0x71, 0x78, 0x50, 0xc2, 0x6c, 0x9c, 0xd0, 0xd8, 0x9d]
  {
    hide Compress, Padded;
    AbcPadded();
    AbcCompressed();
    assert ABC[..64] == ABC && ABC[64..] == [];
  }

}
