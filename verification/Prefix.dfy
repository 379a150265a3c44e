/** `struct prefix` and the byte-level routines on it (db_prefix.c and the head of
    db_table.c). Each routine works on whole bytes and masks, as the source does, and is
    proved against the bit string that a prefix stands for. */
module Prefixes {
  import opened Bits

  type Byte = bv8

  datatype Family = IPv4 | IPv6

  /** `struct prefix`. The address union is 16 bytes in both families; an IPv4 address is its
      first four. A length is within the family's bound: the mask lengths that control messages
      carry are stored as they come, and malformed ones are left out. */
  datatype PrefixRecord = Prefix(family: Family, len: nat, addr: seq<Byte>)

  type Prefix = p: PrefixRecord | |p.addr| == 16 && p.len <= MaxLen(p.family)
    witness Prefix(IPv4, 0, [0, 0, 0, 0, 0, 0, 0, 0, 0, 0, 0, 0, 0, 0, 0, 0])

  function MaxLen(f: Family): nat {
    if f == IPv4 then 32 else 128
  }

  /** Bit k of a byte, most significant first. */
  function UpBit(k: nat): Byte
    requires k < 8
  {
    if k == 0 then 0x80 else if k == 1 then 0x40 else if k == 2 then 0x20 else if k == 3 then 0x10
    else if k == 4 then 0x08 else if k == 5 then 0x04 else if k == 6 then 0x02 else 0x01
  }

  /** The table `maskbit`: the k most significant bits. */
  function MaskBit(k: nat): Byte
    requires k <= 8
  {
    if k == 0 then 0x00 else if k == 1 then 0x80 else if k == 2 then 0xc0 else if k == 3 then 0xe0
    else if k == 4 then 0xf0 else if k == 5 then 0xf8 else if k == 6 then 0xfc else if k == 7 then 0xfe
    else 0xff
  }

  predicate BitAt(b: Byte, k: nat)
    requires k < 8
  {
    b & UpBit(k) != 0
  }

  /** A byte is the number that its bits stand for, the first one weighing most. */
  lemma BitsWeigh(b: Byte)
    ensures b == (if BitAt(b, 0) then 128 else 0) + (if BitAt(b, 1) then 64 else 0) + (if BitAt(b, 2) then 32 else 0)
              + (if BitAt(b, 3) then 16 else 0) + (if BitAt(b, 4) then 8 else 0) + (if BitAt(b, 5) then 4 else 0)
              + (if BitAt(b, 6) then 2 else 0) + (if BitAt(b, 7) then 1 else 0)
  {
  }

  predicate AddrBit(addr: seq<Byte>, i: nat)
    requires i < 8 * |addr|
  {
    BitAt(addr[i / 8], i % 8)
  }

  /** The first n bits of an address. */
  ghost function BitsOf(addr: seq<Byte>, n: nat): (k: Key)
    requires n <= 8 * |addr|
    ensures |k| == n
  {
    if n == 0 then [] else BitsOf(addr, n - 1) + [AddrBit(addr, n - 1)]
  }

  lemma {:induction false} BitsOfAt(addr: seq<Byte>, n: nat, i: nat)
    requires i < n <= 8 * |addr|
    ensures BitsOf(addr, n)[i] == AddrBit(addr, i)
  {
    if i < n - 1 {
      BitsOfAt(addr, n - 1, i);
    }
  }

  /** What a prefix stands for: its first `len` bits. */
  ghost function KeyOf(p: Prefix): (k: Key)
    ensures |k| == p.len
  {
    BitsOf(p.addr, p.len)
  }

  // ---------- single bytes ----------

  lemma AgreeBit(a: Byte, b: Byte, k: nat)
    requires k < 8
    ensures UpBit(k) & (a ^ b) == 0 <==> BitAt(a, k) == BitAt(b, k)
  {
  }

  lemma NextMask(k: nat)
    requires k < 8
    ensures UpBit(k) >> 1 == if k < 7 then UpBit(k + 1) else 0
    ensures MaskBit(k + 1) == MaskBit(k) | UpBit(k)
  {
  }

  lemma SplitMask(d: Byte, m: Byte, u: Byte)
    ensures (m | u) & d == 0 <==> m & d == 0 && u & d == 0
  {
  }

  /** A masked difference is zero exactly when the masked bits agree. */
  lemma {:induction false} MaskedDifference(a: Byte, b: Byte, s: nat)
    requires s <= 8
    ensures MaskBit(s) & (a ^ b) == 0 <==> forall k | 0 <= k < s :: BitAt(a, k) == BitAt(b, k)
  {
    if s > 0 {
      MaskedDifference(a, b, s - 1);
      NextMask(s - 1);
      AgreeBit(a, b, s - 1);
      SplitMask(a ^ b, MaskBit(s - 1), UpBit(s - 1));
    }
  }

  lemma SameByte(a: Byte, b: Byte)
    ensures a == b <==> forall k | 0 <= k < 8 :: BitAt(a, k) == BitAt(b, k)
  {
    MaskedDifference(a, b, 8);
    assert a ^ b == 0 <==> a == b;
  }

  /** Masking keeps the masked bits and clears the others. */
  lemma MaskedBits(a: Byte, s: nat, k: nat)
    requires s <= 8 && k < 8
    ensures BitAt(a & MaskBit(s), k) == (k < s && BitAt(a, k))
  {
    assert MaskBit(s) & UpBit(k) == if k < s then UpBit(k) else 0;
    assert (a & MaskBit(s)) & UpBit(k) == a & (MaskBit(s) & UpBit(k));
  }

  lemma ShiftedBit(b: Byte, k: nat)
    requires k < 8
    ensures ((b >> (7 - k)) & 1 == 1) == BitAt(b, k)
  {
    if k == 0 {} else if k == 1 {} else if k == 2 {} else if k == 3 {}
    else if k == 4 {} else if k == 5 {} else if k == 6 {} else {}
  }

  // ---------- whole addresses ----------

  ghost predicate SameBits(a: seq<Byte>, b: seq<Byte>, lo: nat, hi: nat)
    requires hi <= 8 * |a| && hi <= 8 * |b|
  {
    forall i | lo <= i < hi :: AddrBit(a, i) == AddrBit(b, i)
  }

  lemma SameBytesSameBits(a: seq<Byte>, b: seq<Byte>, n: nat)
    requires n <= |a| && n <= |b|
    ensures (forall m | 0 <= m < n :: a[m] == b[m]) <==> SameBits(a, b, 0, 8 * n)
  {
    if SameBits(a, b, 0, 8 * n) {
      forall m | 0 <= m < n ensures a[m] == b[m] {
        assert forall k | 0 <= k < 8 :: BitAt(a[m], k) == BitAt(b[m], k) by {
          forall k | 0 <= k < 8 ensures BitAt(a[m], k) == BitAt(b[m], k) {
            assert AddrBit(a, 8 * m + k) == AddrBit(b, 8 * m + k);
          }
        }
        SameByte(a[m], b[m]);
      }
    }
  }

  lemma SameBitsInByte(a: seq<Byte>, b: seq<Byte>, m: nat, s: nat)
    requires m < |a| && m < |b| && s <= 8
    ensures (forall k | 0 <= k < s :: BitAt(a[m], k) == BitAt(b[m], k)) <==> SameBits(a, b, 8 * m, 8 * m + s)
  {
    if SameBits(a, b, 8 * m, 8 * m + s) {
      forall k | 0 <= k < s ensures BitAt(a[m], k) == BitAt(b[m], k) {
        assert AddrBit(a, 8 * m + k) == AddrBit(b, 8 * m + k);
      }
    }
  }

  /** The agreement of n leading bits, as whole bytes and one masked byte. */
  lemma SameBitsByBytes(a: seq<Byte>, b: seq<Byte>, n: nat)
    requires |a| == |b| == 16 && n <= 128
    ensures SameBits(a, b, 0, n) <==>
      && (forall m | 0 <= m < n / 8 :: a[m] == b[m])
      && (n % 8 != 0 ==> MaskBit(n % 8) & (a[n / 8] ^ b[n / 8]) == 0)
  {
    var o, s := n / 8, n % 8;
    SameBytesSameBits(a, b, o);
    if s != 0 {
      SameBitsInByte(a, b, o, s);
      MaskedDifference(a[o], b[o], s);
    }
    assert SameBits(a, b, 0, n) <==> SameBits(a, b, 0, 8 * o) && SameBits(a, b, 8 * o, n);
  }

  lemma CoversIsSameBits(n: Prefix, p: Prefix)
    requires n.len <= p.len
    ensures KeyOf(n) <= KeyOf(p) <==> SameBits(n.addr, p.addr, 0, n.len)
  {
    forall i | 0 <= i < n.len
      ensures KeyOf(n)[i] == AddrBit(n.addr, i) && KeyOf(p)[i] == AddrBit(p.addr, i)
    {
      BitsOfAt(n.addr, n.len, i);
      BitsOfAt(p.addr, p.len, i);
    }
    if KeyOf(n) <= KeyOf(p) {
      forall i | 0 <= i < n.len ensures AddrBit(n.addr, i) == AddrBit(p.addr, i) {
        assert KeyOf(n)[i] == KeyOf(p)[i];
      }
    }
  }

  /** `prefix_match`: compares the leftover bits, then the whole bytes from the last to the first. */
  method PrefixMatch(n: Prefix, p: Prefix) returns (r: bool)
    ensures r <==> KeyOf(n) <= KeyOf(p)
  {
    if n.len > p.len {
      return false;
    }
    SameBitsByBytes(n.addr, p.addr, n.len);
    CoversIsSameBits(n, p);
    var offset, shift := n.len / 8, n.len % 8;
    if shift != 0 {
      if MaskBit(shift) & (n.addr[offset] ^ p.addr[offset]) != 0 {
        return false;
      }
    }
    while offset > 0
      invariant 0 <= offset <= n.len / 8
      invariant forall m | offset <= m < n.len / 8 :: n.addr[m] == p.addr[m]
    {
      offset := offset - 1;
      if n.addr[offset] != p.addr[offset] {
        return false;
      }
    }
    return true;
  }

  /** `check_bit`: one bit by shifting. The source may ask for bit 128 of a full-length
      IPv6 prefix, one past the address; the node asked about has no links then. */
  method CheckBit(p: Prefix, i: nat) returns (bit: bool)
    requires i <= 128
    ensures i < p.len ==> bit == KeyOf(p)[i]
    ensures i < 128 ==> bit == AddrBit(p.addr, i)
  {
    if i == 128 {
      bit := false;
    } else {
      CheckedBit(p.addr, i);
      bit := (p.addr[i / 8] >> (7 - i % 8)) & 1 == 1;
    }
  }

  lemma CheckedBit(addr: seq<Byte>, i: nat)
    requires |addr| == 16 && i < 128
    ensures ((addr[i / 8] >> (7 - i % 8)) & 1 == 1) == AddrBit(addr, i)
    ensures forall n | i < n <= 128 :: ((addr[i / 8] >> (7 - i % 8)) & 1 == 1) == BitsOf(addr, n)[i]
  {
    ShiftedBit(addr[i / 8], i % 8);
    forall n | i < n <= 128 ensures AddrBit(addr, i) == BitsOf(addr, n)[i] {
      BitsOfAt(addr, n, i);
    }
  }

  /** `prefix_copy` into a zeroed structure: an IPv4 copy takes four bytes only. */
  function PrefixCopy(src: Prefix): (dest: Prefix)
    ensures dest.family == src.family && KeyOf(dest) == KeyOf(src)
  {
    if src.family == IPv4 then
      var d := Prefix(IPv4, src.len, src.addr[..4] + seq(12, _ => 0));
      CopiedKey(src, d);
      d
    else
      src
  }

  lemma CopiedKey(src: Prefix, d: Prefix)
    requires d.len == src.len <= 32
    requires d.addr[..4] == src.addr[..4]
    ensures KeyOf(d) == KeyOf(src)
  {
    forall m | 0 <= m < 4 ensures d.addr[m] == src.addr[m] {
      assert d.addr[m] == d.addr[..4][m];
    }
    SameBytesSameBits(d.addr, src.addr, 4);
    CoversIsSameBits(d, src);
  }

  /** `route_common`: the longest common prefix of two prefixes, neither of which need be
      masked. It may look past the end of n, which is harmless because n does not cover p. */
  method RouteCommon(n: Prefix, p: Prefix) returns (common: Prefix)
    requires n.family == p.family
    requires !(KeyOf(n) <= KeyOf(p))
    ensures common.family == p.family
    ensures KeyOf(common) == Lcp(KeyOf(n), KeyOf(p))
  {
    var newp: seq<Byte> := seq(16, _ => 0);
    var i := 0;
    while i < p.len / 8 && n.addr[i] == p.addr[i]
      invariant 0 <= i <= p.len / 8 && |newp| == 16
      invariant forall m | 0 <= m < i :: newp[m] == n.addr[m]
      invariant forall m | 0 <= m < i :: n.addr[m] == p.addr[m]
    {
      newp := newp[i := n.addr[i]];
      i := i + 1;
    }
    var len := 8 * i;
    SameBytesSameBits(n.addr, p.addr, i);
    if len != p.len {
      len, newp := FirstDifference(n, p, i, newp);
    }
    SameBytesSameBits(newp, n.addr, i);
    common := Prefix(p.family, len, newp);
    CommonIsLcp(n, p, common, 8 * i);
  }

  /** The second half of `route_common`: byte i is the first that differs or the last, partial one. */
  method FirstDifference(n: Prefix, p: Prefix, i: nat, newp: seq<Byte>) returns (len: nat, addr: seq<Byte>)
    requires |newp| == 16
    requires i < 16 && 8 * i < p.len && (8 * i + 8 <= p.len ==> n.addr[i] != p.addr[i])
    ensures 8 * i <= len <= p.len && |addr| == 16
    ensures forall m | 0 <= m < i :: addr[m] == newp[m]
    ensures SameBits(n.addr, p.addr, 8 * i, len) && SameBits(addr, n.addr, 8 * i, len)
    ensures len < p.len ==> AddrBit(n.addr, len) != AddrBit(p.addr, len)
  {
    hide BitAt, MaskBit, SameBits, AddrBit;
    var diff := n.addr[i] ^ p.addr[i];
    var s := CommonBits(n.addr[i], p.addr[i], diff, p.len - 8 * i);
    CutByte(newp, n.addr, i, s);
    len := 8 * i + s;
    var octet := n.addr[i] & MaskBit(len % 8);
    addr := newp[i := octet];
    SameBitsInByte(n.addr, p.addr, i, s);
    if len < p.len {
      BitInByte(n.addr, i, s);
      BitInByte(p.addr, i, s);
    }
  }

  lemma BitInByte(addr: seq<Byte>, i: nat, s: nat)
    requires i < |addr| && s < 8
    ensures AddrBit(addr, 8 * i + s) == BitAt(addr[i], s) && (8 * i + s) % 8 == s
  {
  }

  /** The leading bits of a byte that is masked stay. */
  lemma CutByte(newp: seq<Byte>, a: seq<Byte>, i: nat, s: nat)
    requires |newp| == |a| == 16 && i < 16 && s < 8
    ensures (8 * i + s) % 8 == s && SameBits(newp[i := a[i] & MaskBit(s)], a, 8 * i, 8 * i + s)
  {
    hide BitAt, MaskBit, SameBits, AddrBit;
    MaskedLeading(a[i], s);
    SameBitsInByte(newp[i := a[i] & MaskBit(s)], a, i, s);
  }

  lemma MaskedLeading(a: Byte, s: nat)
    requires s < 8
    ensures forall k | 0 <= k < s :: BitAt(a & MaskBit(s), k) == BitAt(a, k)
  {
    hide BitAt, MaskBit;
    forall k | 0 <= k < s ensures BitAt(a & MaskBit(s), k) == BitAt(a, k) {
      MaskedBits(a, s, k);
    }
  }

  /** The inner loop of `route_common`: shifts a one-bit mask until it meets the difference,
      or the prefix ends. */
  method CommonBits(a: Byte, b: Byte, diff: Byte, room: nat) returns (s: nat)
    requires diff == a ^ b && (room >= 8 ==> a != b)
    ensures s <= room && s < 8
    ensures forall k | 0 <= k < s :: BitAt(a, k) == BitAt(b, k)
    ensures s < room ==> BitAt(a, s) != BitAt(b, s)
  {
    var mask: Byte := 0x80;
    s := 0;
    while s < room && mask & diff == 0
      invariant s <= 8 && s <= room
      invariant mask == if s < 8 then UpBit(s) else 0
      invariant forall k | 0 <= k < s :: BitAt(a, k) == BitAt(b, k)
      invariant s == 8 ==> a == b
      decreases room - s
    {
      AgreeBit(a, b, s);
      NextMask(s);
      if s == 7 {
        SameByte(a, b);
      }
      mask := mask >> 1;
      s := s + 1;
    }
    if s < room {
      AgreeBit(a, b, s);
    }
  }

  lemma CommonIsLcp(n: Prefix, p: Prefix, c: Prefix, mid: nat)
    requires mid <= c.len <= p.len
    requires !(KeyOf(n) <= KeyOf(p))
    requires SameBits(n.addr, p.addr, 0, mid) && SameBits(n.addr, p.addr, mid, c.len)
    requires SameBits(c.addr, n.addr, 0, mid) && SameBits(c.addr, n.addr, mid, c.len)
    requires c.len < p.len ==> AddrBit(n.addr, c.len) != AddrBit(p.addr, c.len)
    ensures KeyOf(c) == Lcp(KeyOf(n), KeyOf(p))
  {
    assert SameBits(n.addr, p.addr, 0, c.len) && SameBits(c.addr, n.addr, 0, c.len);
    assert c.len < n.len by {
      if n.len <= c.len {
        CoversIsSameBits(n, p);
        assert false;
      }
    }
    if c.len < p.len {
      BitsOfAt(n.addr, n.len, c.len);
      BitsOfAt(p.addr, p.len, c.len);
    }
    CoversIsSameBits(c, p);
    CoversIsSameBits(c, n);
    LcpUnique(KeyOf(c), KeyOf(n), KeyOf(p));
  }

  /** `apply_mask`: clears the host bits of the address of the family, byte by byte, keeps the
      bit string, and makes the result the only masked form of it. */
  method ApplyMask(p: Prefix) returns (r: Prefix)
    ensures r.family == p.family && r.len == p.len && KeyOf(r) == KeyOf(p)
    ensures forall i | p.len <= i < MaxLen(p.family) :: !AddrBit(r.addr, i)
    ensures r.addr[MaxLen(p.family) / 8..] == p.addr[MaxLen(p.family) / 8..]
  {
    hide BitsOf, BitAt, AddrBit, MaskBit;
    var size := MaxLen(p.family) / 8;
    assert 8 * size == MaxLen(p.family);
    var index := p.len / 8;
    var pnt := p.addr;
    if index < size {
      var offset := p.len % 8;
      pnt := pnt[index := pnt[index] & MaskBit(offset)];
      index := index + 1;
      ghost var masked := pnt;
      while index < size
        invariant p.len / 8 < index <= size && |pnt| == 16
        invariant forall j | 0 <= j <= p.len / 8 :: pnt[j] == masked[j]
        invariant forall j | p.len / 8 < j < index :: pnt[j] == 0
        invariant pnt[size..] == p.addr[size..]
      {
        pnt := pnt[index := 0];
        index := index + 1;
      }
      MaskedKey(p, pnt, size);
    }
    r := p.(addr := pnt);
  }

  lemma MaskedKey(p: Prefix, a: seq<Byte>, size: nat)
    requires |a| == 16 && p.len / 8 < size <= 16
    requires forall j | 0 <= j < p.len / 8 :: a[j] == p.addr[j]
    requires a[p.len / 8] == p.addr[p.len / 8] & MaskBit(p.len % 8)
    requires forall j | p.len / 8 < j < size :: a[j] == 0
    ensures BitsOf(a, p.len) == KeyOf(p)
    ensures forall i | p.len <= i < 8 * size :: !AddrBit(a, i)
  {
    var o, s := p.len / 8, p.len % 8;
    SameBytesSameBits(a, p.addr, o);
    forall k | 0 <= k < 8 ensures BitAt(a[o], k) == (k < s && BitAt(p.addr[o], k)) {
      MaskedBits(p.addr[o], s, k);
    }
    SameBitsInByte(a, p.addr, o, s);
    assert SameBits(a, p.addr, 0, p.len);
    CoversIsSameBits(p.(addr := a), p);
    forall i | p.len <= i < 8 * size ensures !AddrBit(a, i) {
      if i / 8 == o {
        assert i % 8 >= s;
      } else {
        assert a[i / 8] == 0;
      }
    }
  }
}
