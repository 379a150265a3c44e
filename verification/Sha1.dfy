/** The streaming half of sha.c: a context that holds the hash of the whole blocks so far, the
    bytes of the last partial block, and the bit length in two 32-bit words. */
module Sha1Stream {
  import opened Sha1Spec
  import opened Sha1Rounds

  const B: int := 0x1_0000_0000

  function Whole(m: seq<Byte>): (r: seq<Byte>)
    ensures |r| % 64 == 0
  {
    m[..|m| - |m| % 64]
  }

  function Rest(m: seq<Byte>): (r: seq<Byte>)
    ensures |r| == |m| % 64
  {
    m[|m| - |m| % 64..]
  }

  lemma Parts(s: seq<Byte>, t: seq<Byte>)
    requires |s| % 64 == 0 && |t| < 64
    ensures Whole(s + t) == s && Rest(s + t) == t
  {
    assert |s + t| % 64 == |t|;
  }

  // ---------- the two-word counter ----------

  function Low(n: nat): nat { 8 * n % B }

  function High(n: nat): nat { 8 * n / B % B }

  /** `count[0] += len << 3`, the carry, `count[1] += len >> 29`, all in 32 bits. */
  function CountUp(c0: nat, c1: nat, len: nat): (r: (nat, nat)) {
    var s := 8 * len % B;
    var d0 := (c0 + s) % B;
    var d1 := if d0 < s then (c1 + 1) % B else c1;
    (d0, (d1 + len / 0x2000_0000) % B)
  }

  lemma SumModulo(x: nat, y: nat)
    ensures (x % B + y) % B == (x + y) % B
  {
    assert x == x / B * B + x % B;
    assert x + y == (x % B + y) + x / B * B;
  }

  lemma DivMod(x: nat, k: nat, r: nat)
    requires x == k * B + r && r < B
    ensures x / B == k && x % B == r
  {
  }

  /** The low words and their carry. */
  lemma LowSum(n0: nat, s: nat)
    requires n0 < B && s < B
    ensures (n0 + s) % B == if n0 + s >= B then n0 + s - B else n0 + s
    ensures (n0 + s) % B < s <==> n0 + s >= B
  {
    if n0 + s >= B {
      DivMod(n0 + s, 1, n0 + s - B);
    } else {
      DivMod(n0 + s, 0, n0 + s);
    }
  }

  /** The high words, one mod after the other or all at once. */
  lemma HighSum(q: nat, carry: nat, p: nat)
    ensures ((q % B + carry) % B + p) % B == (q + p + carry) % B
    ensures (q % B + p) % B == (q + p) % B
  {
    SumModulo(q, carry);
    SumModulo(q + carry, p);
    SumModulo(q, p);
  }

  lemma Words(x: nat, y: nat, q: nat, n0: nat, p: nat, s: nat)
    requires x == q * B + n0 && y == p * B + s && n0 < B && s < B
    ensures n0 + s >= B ==> (x + y) / B == q + p + 1 && (x + y) % B == n0 + s - B
    ensures n0 + s < B ==> (x + y) / B == q + p && (x + y) % B == n0 + s
  {
    if n0 + s >= B {
      assert x + y == (q + p + 1) * B + (n0 + s - B);
      DivMod(x + y, q + p + 1, n0 + s - B);
    } else {
      assert x + y == (q + p) * B + (n0 + s);
      DivMod(x + y, q + p, n0 + s);
    }
  }

  lemma TopBits(len: nat)
    ensures len / 0x2000_0000 == 8 * len / B
  {
    var p := len / 0x2000_0000;
    assert 8 * len == p * B + 8 * (len - 0x2000_0000 * p);
    DivMod(8 * len, p, 8 * (len - 0x2000_0000 * p));
  }

  /** Two words with a carry count the bits modulo 2^64. */
  lemma CountUpCounts(n: nat, len: nat)
    ensures CountUp(Low(n), High(n), len) == (Low(n + len), High(n + len))
  {
    var q, n0 := 8 * n / B, 8 * n % B;
    var p, s := 8 * len / B, 8 * len % B;
    assert 8 * n + 8 * len == 8 * (n + len);
    Words(8 * n, 8 * len, q, n0, p, s);
    LowSum(n0, s);
    TopBits(len);
    HighSum(q, 1, p);
  }

  lemma PlaceOf(n: nat)
    ensures Low(n) / 8 % 64 == n % 64
  {
    var q := 8 * n / B;
    var d := n - 0x2000_0000 * q;
    assert Low(n) == 8 * d;
    assert n == 64 * (0x80_0000 * q) + d;
    Sixty(0x80_0000 * q, d);
  }

  lemma Sixty(q: nat, d: nat)
    ensures (64 * q + d) % 64 == d % 64
  {
  }

  lemma SameByte(a: nat, b: nat, k: nat)
    requires a == 256 * k + b
    ensures ByteOf(a) == ByteOf(b)
  {
    hide AsByte;
    assert a % 256 == b % 256;
  }

  lemma Joined(n: nat)
    ensures 8 * n % 0x1_0000_0000_0000_0000 == High(n) * B + Low(n)
  {
    var q, r := 8 * n / B, 8 * n % B;
    assert 8 * n == q / B * 0x1_0000_0000_0000_0000 + (q % B * B + r);
  }

  lemma LengthBytes(n: nat)
    ensures var h, l := High(n), Low(n);
      LengthOctets(n) ==
      [ByteOf(h / 0x1_00_0000), ByteOf(h / 0x1_0000), ByteOf(h / 0x1_00), ByteOf(h),
       ByteOf(l / 0x1_00_0000), ByteOf(l / 0x1_0000), ByteOf(l / 0x1_00), ByteOf(l)]
  {
    Joined(n);
    var h, l, m := High(n), Low(n), 8 * n % 0x1_0000_0000_0000_0000;
    hide ByteOf, High, Low;
    assert m / B == h;
    assert m / 0x1_00_0000_0000_0000 == h / 0x1_00_0000 && m / 0x1_0000_0000_0000 == h / 0x1_0000;
    assert m / 0x1_00_0000_0000 == h / 0x1_00;
    SameByte(m / 0x1_00_0000, l / 0x1_00_0000, h);
    SameByte(m / 0x1_0000, l / 0x1_0000, 0x1_00 * h);
    SameByte(m / 0x1_00, l / 0x1_00, 0x1_0000 * h);
    SameByte(m, l, 0x1_00_0000 * h);
  }

  // ---------- what is left of the data ----------

  /** Whole blocks that are compressed where they lie, and what follows them. */
  function Spoiled(s: seq<Byte>): (r: seq<Byte>)
    ensures |r| == |s|
    decreases |s|
  {
    if |s| < 64 then s else Scrambled(s[..64]) + Spoiled(s[64..])
  }

  /** The data of `SHA1_Update` afterwards, if the buffer held j bytes before: what completes the
      buffer is copied and stays, the whole blocks behind it are overwritten, the rest stays. */
  function Overwritten(j: nat, s: seq<Byte>): (r: seq<Byte>)
    requires j < 64
    ensures |r| == |s|
    ensures j + |s| < 128 ==> r == s
  {
    if j + |s| > 63 then s[..64 - j] + Spoiled(s[64 - j..]) else s
  }

  /** One block further. */
  lemma SpoiledStep(s: seq<Byte>, i: nat, n: nat, scrambled: seq<Byte>, all: seq<Byte>)
    requires i + 64 <= n <= |s| && scrambled + Spoiled(s[i..n]) == all
    ensures scrambled + Scrambled(s[i..i + 64]) + Spoiled(s[i + 64..n]) == all
  {
    hide Scrambled;
    assert s[i..n][..64] == s[i..i + 64] && s[i..n][64..] == s[i + 64..n];
  }

  /** The data before and after one block: what is scrambled grows. */
  lemma OneBlock(a: seq<Byte>, b: seq<Byte>, was: seq<Byte>, from: nat, i: nat, scrambled: seq<Byte>)
    requires from <= i && i + 64 <= |was| == |a| == |b| && |scrambled| == i - from
    requires a == was[..from] + scrambled + was[i..]
    requires b[..i] == a[..i] && b[i + 64..] == a[i + 64..] && b[i..i + 64] == Scrambled(was[i..i + 64])
    ensures b == was[..from] + (scrambled + Scrambled(was[i..i + 64])) + was[i + 64..]
  {
    hide Scrambled;
    assert b == b[..i] + b[i..i + 64] + b[i + 64..];
    assert a[..i] == was[..from] + scrambled && a[i + 64..] == was[i + 64..];
  }

  /** The data at the end. */
  lemma Left(was: seq<Byte>, data: seq<Byte>, from: nat, i: nat, len: nat, scrambled: seq<Byte>)
    requires from <= i <= len <= |was| && len - i < 64 && |scrambled| == i - from
    requires data == was[..from] + scrambled + was[i..]
    requires scrambled + Spoiled(was[i..len]) == Spoiled(was[from..len])
    ensures |data| == |was| && data[..from] == was[..from] && data[i..] == was[i..]
    ensures data[len..] == was[len..] && data[i..len] == was[i..len] && data[from..len] == Spoiled(was[from..len])
  {
    assert data[i..] == was[i..];
    assert data[len..] == data[i..][len - i..] && was[len..] == was[i..][len - i..];
    assert data[i..len] == data[i..][..len - i] && was[i..len] == was[i..][..len - i];
    assert data[from..len] == scrambled + was[i..len];
  }

  lemma Halves(was: seq<Byte>, data: seq<Byte>, k: nat, len: nat)
    requires 0 < k <= 64 && k <= len <= |was| == |data|
    requires data[..k] == was[..k] && data[k..len] == Spoiled(was[k..len])
    ensures data[..len] == Overwritten(64 - k, was[..len])
  {
    hide Spoiled;
    assert data[..len] == data[..k] + data[k..len];
    assert was[..len][..k] == was[..k] && was[..len][k..] == was[k..len];
  }

  /** The blocks that are taken follow the one that was completed. */
  lemma Completed(m: seq<Byte>, was: seq<Byte>, k: nat, i: nat)
    requires k <= i <= |was| && (|m| + k) % 64 == 0 && (i - k) % 64 == 0
    ensures m + was[..k] + was[k..i] == m + was[..i] && |m + was[..i]| % 64 == 0
  {
    assert was[..k] + was[k..i] == was[..i];
  }

  // ---------- the context ----------

  /** `memcpy`. */
  method Copy(dst: array<Byte>, at: nat, src: array<Byte>, from: nat, n: nat)
    requires dst != src && at + n <= dst.Length && from + n <= src.Length
    modifies dst
    ensures dst[at..at + n] == src[from..from + n]
    ensures dst[..at] == old(dst[..at]) && dst[at + n..] == old(dst[at + n..])
  {
    var k := 0;
    while k < n
      invariant 0 <= k <= n
      invariant dst[at..at + k] == src[from..from + k]
      invariant dst[..at] == old(dst[..at]) && dst[at + n..] == old(dst[at + n..])
    {
      dst[at + k] := src[from + k];
      k := k + 1;
    }
  }

  lemma ZeroMore(m: seq<Byte>, k: nat)
    ensures m + [0x80] + Zeros(k) + [0] == m + [0x80] + Zeros(k + 1)
  {
    assert Zeros(k) + [0] == Zeros(k + 1);
  }

  lemma ZeroNone(m: seq<Byte>)
    ensures m + [0x80] == m + [0x80] + Zeros(0)
  {
  }

  /** `SHA_CTX`. */
  class ShaCtx {
    var state: Regs
    var count0: nat
    var count1: nat
    const buffer: array<Byte>
    /** Everything hashed so far. */
    ghost var msg: seq<Byte>

    ghost predicate Valid()
      reads this, buffer
    {
      && buffer.Length == 64 && state == Absorb(IV, Whole(msg))
      && buffer[..|msg| % 64] == Rest(msg) && count0 == Low(|msg|) && count1 == High(|msg|)
    }

    constructor ()
      ensures Valid() && msg == [] && fresh(buffer)
    {
      buffer := new Byte[64];
      state, count0, count1, msg := IV, 0, 0, [];
    }

    /** `SHA1_Init`. */
    method Init()
      requires buffer.Length == 64
      modifies this
      ensures Valid() && msg == []
    {
      state, count0, count1, msg := IV, 0, 0, [];
    }

    /** The blocks that `SHA1_Update` takes straight from the data, which they lose. */
    method Blocks(data: array<Byte>, from: nat, len: nat, ghost done: seq<Byte>) returns (i: nat)
      requires data != buffer && from <= len <= data.Length
      requires |done| % 64 == 0 && state == Absorb(IV, done)
      modifies this`state, data
      ensures from <= i <= len && len - i < 64 && (i - from) % 64 == 0
      ensures state == Absorb(IV, done + old(data[from..i]))
      ensures data[..from] == old(data[..from]) && data[len..] == old(data[len..])
      ensures data[i..len] == old(data[i..len]) && data[from..len] == Spoiled(old(data[from..len]))
    {
      hide Absorb, Compress, Scrambled, Spoiled;
      i := from;
      assert done + data[from..i] == done;
      ghost var was, scrambled: seq<Byte> := data[..], [];
      assert was[from..len] == data[from..len] && scrambled + Spoiled(was[from..len]) == Spoiled(was[from..len]);
      while i + 63 < len
        invariant from <= i <= len && (i - from) % 64 == 0 && |scrambled| == i - from
        invariant state == Absorb(IV, done + was[from..i])
        invariant data[..] == was[..from] + scrambled + was[i..]
        invariant scrambled + Spoiled(was[i..len]) == Spoiled(was[from..len])
      {
        SpoiledStep(was, i, len, scrambled, Spoiled(was[from..len]));
        TakeBlock(data, i, was, from, done, scrambled);
        scrambled := scrambled + Scrambled(was[i..i + 64]);
        i := i + 64;
      }
      Left(was, data[..], from, i, len, scrambled);
    }

    /** One round of that loop. */
    method TakeBlock(data: array<Byte>, i: nat, ghost was: seq<Byte>, ghost from: nat, ghost done: seq<Byte>,
                     ghost scrambled: seq<Byte>)
      requires from <= i && i + 64 <= data.Length == |was| && |scrambled| == i - from
      requires |done| % 64 == 0 && (i - from) % 64 == 0 && state == Absorb(IV, done + was[from..i])
      requires data[..] == was[..from] + scrambled + was[i..]
      modifies this`state, data
      ensures state == Absorb(IV, done + was[from..i + 64])
      ensures data[..] == was[..from] + (scrambled + Scrambled(was[i..i + 64])) + was[i + 64..]
    {
      hide Absorb, Compress, Scrambled;
      ghost var block, before := was[i..i + 64], data[..];
      assert data[i..i + 64] == block;
      AbsorbOne(IV, done + was[from..i], block);
      assert done + was[from..i] + block == done + was[from..i + 64];
      state := Transform(state, data, i);
      assert data[..][..i] == data[..i] && data[..][i + 64..] == data[i + 64..];
      assert before[..i] == old(data[..i]) && before[i + 64..] == old(data[i + 64..]);
      OneBlock(before, data[..], was, from, i, scrambled);
    }

    /** The branch of `SHA1_Update` that completes a block. */
    method Complete(data: array<Byte>, len: nat, j: nat) returns (i: nat)
      requires buffer.Length == 64 && data != buffer && len <= data.Length
      requires j == |msg| % 64 && j + len > 63
      requires state == Absorb(IV, Whole(msg)) && buffer[..j] == Rest(msg)
      modifies this`state, buffer, data
      ensures i <= len && len - i < 64 && |msg + old(data[..i])| % 64 == 0
      ensures state == Absorb(IV, msg + old(data[..i]))
      ensures data[i..len] == old(data[i..len]) && data[len..] == old(data[len..])
      ensures data[..len] == Overwritten(j, old(data[..len]))
    {
      hide Absorb, Compress, Spoiled, Overwritten;
      var k := 64 - j;
      ghost var was, head := data[..], data[..k];
      Copy(buffer, j, data, 0, k);
      assert buffer[0..64] == Rest(msg) + head;
      FirstBlock(msg, head);
      state := Transform(state, buffer, 0);
      i := Blocks(data, k, len, msg + head);
      Completed(msg, was, k, i);
      Halves(was, data[..], k, len);
    }

    /** The counter of `SHA1_Update`; the place in the buffer is where it stood before. */
    method Count(len: nat) returns (j: nat)
      requires count0 == Low(|msg|) && count1 == High(|msg|)
      modifies this`count0, this`count1
      ensures j == |msg| % 64 && count0 == Low(|msg| + len) && count1 == High(|msg| + len)
    {
      hide CountUp, Low, High;
      PlaceOf(|msg|);
      CountUpCounts(|msg|, len);
      j := count0 / 8 % 64;
      var c := CountUp(count0, count1, len);
      count0, count1 := c.0, c.1;
    }

    /** The last partial block goes into the buffer. */
    method KeepTail(data: array<Byte>, i: nat, len: nat, j: nat, ghost taken: seq<Byte>)
      requires buffer.Length == 64 && data != buffer && i <= len <= data.Length && j + (len - i) < 64
      requires |taken| % 64 == 0 && state == Absorb(IV, taken) && msg == taken + buffer[..j] + data[i..len]
      requires count0 == Low(|msg|) && count1 == High(|msg|)
      modifies buffer
      ensures Valid()
    {
      hide Absorb, Low, High, Whole, Rest;
      ghost var tail := buffer[..j] + data[i..len];
      Parts(taken, tail);
      assert taken + tail == msg;
      Copy(buffer, j, data, i, len - i);
      assert buffer[..j + (len - i)] == tail;
    }

    /** `SHA1_Update`. The whole blocks after the first partial one are overwritten in the data. */
    method Update(data: array<Byte>, len: nat)
      requires Valid() && data != buffer && len <= data.Length && len + 64 <= B
      modifies this, buffer, data
      ensures Valid() && msg == old(msg) + old(data[..len])
      ensures data[len..] == old(data[len..])
      ensures data[..len] == Overwritten(old(|msg|) % 64, old(data[..len]))
      ensures old(|msg|) % 64 + len < 128 ==> data[..] == old(data[..])
    {
      hide Absorb, Low, High, Whole, Rest, Overwritten;
      WholeRest(msg);
      var j := Count(len);
      var i := 0;
      ghost var taken, more := Whole(msg), data[..len];
      if j + len > 63 {
        i := Complete(data, len, j);
        taken := msg + old(data[..i]);
        j := 0;
        assert more == old(data[..i]) + data[i..len];
      }
      msg := msg + more;
      KeepTail(data, i, len, j, taken);
    }

    /** `finalcount`: the bit length in eight bytes, the higher word first. */
    method LengthField() returns (f: array<Byte>)
      requires count0 == Low(|msg|) && count1 == High(|msg|)
      ensures fresh(f) && f[..] == LengthOctets(|msg|)
    {
      hide ByteOf, Low, High, LengthOctets;
      LengthBytes(|msg|);
      f := new Byte[8];
      var i := 0;
      while i < 8
        invariant 0 <= i <= 8
        invariant forall k | 0 <= k < i :: f[k] == CountByte(if k >= 4 then count0 else count1, k % 4)
      {
        f[i] := CountByte(if i >= 4 then count0 else count1, i % 4);
        i := i + 1;
      }
    }

    /** `SHA1_Final`: pads, and writes the hash; the context is wiped. */
    method Final(digest: array<Byte>)
      requires Valid() && digest != buffer && digest.Length >= 20
      modifies this, buffer, digest
      ensures digest[..20] == Sha1(old(msg)) && digest[20..] == old(digest[20..])
      ensures state == Regs(0, 0, 0, 0, 0) && count0 == count1 == 0 && buffer[..] == Zeros(buffer.Length)
    {
      hide Absorb, LengthOctets, Low, High, Sha1, Digest, Padded, Gap, Overwritten;
      ghost var m := msg;
      var finalcount := LengthField();
      Pad();
      Update(finalcount, 8);
      PaddedAll(m, msg);
      WriteDigest(digest);
      state, count0, count1 := Regs(0, 0, 0, 0, 0), 0, 0;
      Clear(buffer, 0, buffer.Length);
    }

    /** One zero more. */
    method PadOne(zero: array<Byte>, ghost m: seq<Byte>, ghost k: nat)
      requires Valid() && zero[..] == [0] && zero != buffer
      requires k <= Gap(|m|) && msg == m + [0x80] + Zeros(k) && |msg| % 64 != 56
      modifies this, buffer, zero
      ensures Valid() && zero[..] == [0] && count0 / 8 % 64 == |msg| % 64
      ensures k < Gap(|m|) && msg == m + [0x80] + Zeros(k + 1)
    {
      hide Absorb, Low, High, Whole, Rest, Gap, CountUp, Zeros, Overwritten;
      assert zero[..1] == zero[..];
      Update(zero, 1);
      ZeroMore(m, k);
      PlaceOf(|msg|);
    }

    /** The byte 0x80, then zero bytes one at a time up to eight bytes before the end of a block. */
    method Pad()
      requires Valid()
      modifies this, buffer
      ensures Valid() && msg == old(msg) + [0x80] + Zeros(Gap(old(|msg|)))
    {
      hide Absorb, Low, High, Whole, Rest, Gap, CountUp, Zeros, Overwritten;
      GapAtLeast(|msg|);
      ghost var m := msg;
      var one := new Byte[1];
      one[0] := 0x80;
      Update(one, 1);
      var zero := new Byte[1];
      zero[0] := 0;
      ghost var k := 0;
      ZeroNone(m);
      PlaceOf(|msg|);
      while count0 / 8 % 64 != 56
        invariant Valid() && 0 <= k <= Gap(|m|) && msg == m + [0x80] + Zeros(k) && zero[..] == [0]
        invariant count0 / 8 % 64 == |msg| % 64
        decreases Gap(|m|) - k
      {
        PadOne(zero, m, k);
        k := k + 1;
      }
      GapUnique(|m|, k);
    }

    method WriteDigest(digest: array<Byte>)
      requires digest != buffer && digest.Length >= 20
      modifies digest
      ensures digest[..20] == Digest(state) && digest[20..] == old(digest[20..])
    {
      hide WordByte, WordBytes;
      var i := 0;
      while i < 20
        invariant 0 <= i <= 20 && digest[20..] == old(digest[20..])
        invariant forall k | 0 <= k < i :: digest[k] == WordByte(Register(state, k / 4), k % 4)
      {
        digest[i] := WordByte(Register(state, i / 4), i % 4);
        i := i + 1;
      }
      forall k | 0 <= k < 20 ensures digest[k] == Digest(state)[k] {
        DigestByte(state, k);
      }
    }
  }

  /** `memset` to zero. */
  method Clear(a: array<Byte>, from: nat, n: nat)
    requires from + n <= a.Length
    modifies a
    ensures a[from..from + n] == Zeros(n)
    ensures a[..from] == old(a[..from]) && a[from + n..] == old(a[from + n..])
  {
    var k := 0;
    while k < n
      invariant 0 <= k <= n
      invariant a[from..from + k] == Zeros(k)
      invariant a[..from] == old(a[..from]) && a[from + n..] == old(a[from + n..])
    {
      a[from + k] := 0;
      k := k + 1;
    }
  }

  /** `(count >> ((3 - i) * 8)) & 255`. */
  function CountByte(c: nat, i: nat): Byte
    requires i < 4
  {
    if i == 0 then ByteOf(c / 0x1_00_0000) else if i == 1 then ByteOf(c / 0x1_0000)
    else if i == 2 then ByteOf(c / 0x1_00) else ByteOf(c)
  }

  function Register(r: Regs, i: nat): Word
    requires i < 5
  {
    if i == 0 then r.a else if i == 1 then r.b else if i == 2 then r.c else if i == 3 then r.d else r.e
  }

  /** `(state[i >> 2] >> ((3 - (i & 3)) * 8)) & 255`. */
  function WordByte(w: Word, i: nat): Byte
    requires i < 4
  {
    if i == 0 then ((w >> 24) & 255) as Byte else if i == 1 then ((w >> 16) & 255) as Byte
    else if i == 2 then ((w >> 8) & 255) as Byte else (w & 255) as Byte
  }

  lemma WordByteIs(w: Word)
    ensures WordBytes(w) == [WordByte(w, 0), WordByte(w, 1), WordByte(w, 2), WordByte(w, 3)]
  {
  }

  lemma FiveFours(a: seq<Byte>, b: seq<Byte>, c: seq<Byte>, d: seq<Byte>, e: seq<Byte>, k: nat)
    requires |a| == |b| == |c| == |d| == |e| == 4 && k < 20
    ensures (a + b + c + d + e)[k] == [a, b, c, d, e][k / 4][k % 4]
  {
  }

  lemma DigestByte(r: Regs, k: nat)
    requires k < 20
    ensures Digest(r)[k] == WordByte(Register(r, k / 4), k % 4)
  {
    hide WordByte, WordBytes;
    var w := Register(r, k / 4);
    WordByteIs(w);
    FiveFours(WordBytes(r.a), WordBytes(r.b), WordBytes(r.c), WordBytes(r.d), WordBytes(r.e), k);
    assert [WordBytes(r.a), WordBytes(r.b), WordBytes(r.c), WordBytes(r.d), WordBytes(r.e)][k / 4] == WordBytes(w);
  }

  lemma GapAtLeast(n: nat)
    ensures Gap(n) < 64
  {
  }

  lemma GapUnique(n: nat, k: nat)
    requires k <= Gap(n) && (n + 1 + k) % 64 == 56
    ensures k == Gap(n)
  {
  }

  lemma PaddedAll(m: seq<Byte>, p: seq<Byte>)
    requires p == m + [0x80] + Zeros(Gap(|m|)) + LengthOctets(|m|)
    ensures Whole(p) == p && Sha1(m) == Digest(Absorb(IV, Whole(p)))
  {
    hide LengthOctets, Absorb, Digest;
    assert p == Padded(m);
    assert p[..|p| - 0] == p;
  }

  lemma WholeRest(m: seq<Byte>)
    ensures Whole(m) + Rest(m) == m && |Rest(m)| == |m| % 64
  {
  }

  lemma FirstBlock(m: seq<Byte>, s: seq<Byte>)
    requires |m| % 64 + |s| == 64
    ensures |m + s| % 64 == 0 && |Rest(m) + s| == 64
    ensures Absorb(IV, m + s) == Compress(Absorb(IV, Whole(m)), Rest(m) + s)
  {
    hide Absorb, Compress;
    AbsorbOne(IV, Whole(m), Rest(m) + s);
    assert Whole(m) + (Rest(m) + s) == m + s;
  }
}
