/** `SHA1_Transform` of sha.c: the block is turned into the schedule in place, sixteen words in a
    ring, and the working variables change names instead of places. */
module Sha1Rounds {
  import opened Sha1Spec

  // ---------- the block as words ----------

  /** A word of the block as a little-endian machine reads it. */
  function LittleEndian(b0: Byte, b1: Byte, b2: Byte, b3: Byte): Word {
    (b3 as Word << 24) | (b2 as Word << 16) | (b1 as Word << 8) | b0 as Word
  }

  function Rol8(x: Word): Word { (x << 8) | (x >> 24) }

  function Rol24(x: Word): Word { (x << 24) | (x >> 8) }

  /** `blk0` on a little-endian machine. */
  function Swapped(x: Word): Word {
    (Rol24(x) & 0xff00ff00) | (Rol8(x) & 0x00ff00ff)
  }

  lemma SwappedIsBigEndian(b0: Byte, b1: Byte, b2: Byte, b3: Byte)
    ensures Swapped(LittleEndian(b0, b1, b2, b3)) == BigEndian(b0, b1, b2, b3)
  {
  }

  function Raw(block: seq<Byte>, i: nat): Word
    requires |block| == 64 && i < 16
  {
    LittleEndian(block[4 * i], block[4 * i + 1], block[4 * i + 2], block[4 * i + 3])
  }

  // ---------- the functions of the rounds ----------

  function Choose(w: Word, x: Word, y: Word): Word { (w & (x ^ y)) ^ y }

  function Majority(w: Word, x: Word, y: Word): Word { ((w | x) & y) | (w & x) }

  lemma ChooseBits(w: Word, x: Word, y: Word)
    ensures (w & (x ^ y)) ^ y == (w & x) ^ (!w & y)
  {
  }

  lemma MajorityBits(w: Word, x: Word, y: Word)
    ensures ((w | x) & y) | (w & x) == (w & x) ^ (w & y) ^ (x & y)
  {
  }

  lemma ChooseIsCh(w: Word, x: Word, y: Word)
    ensures Choose(w, x, y) == Ch(w, x, y)
  {
    ChooseBits(w, x, y);
  }

  lemma MajorityIsMaj(w: Word, x: Word, y: Word)
    ensures Majority(w, x, y) == Maj(w, x, y)
  {
    MajorityBits(w, x, y);
  }

  /** The order in which a round adds. */
  function Plus(z: Word, f: Word, blk: Word, k: Word, rol: Word): Word {
    z + (f + blk + k + rol)
  }

  lemma PlusIsSum(z: Word, f: Word, blk: Word, k: Word, rol: Word)
    ensures Plus(z, f, blk, k, rol) == Sum5(rol, f, z, k, blk)
  {
  }

  // ---------- the ring ----------

  /** Before step t the ring holds the last sixteen words of the schedule, and while the first
      sixteen are still to come, the block. */
  ghost predicate Ring(l: seq<Word>, block: seq<Byte>, t: nat) {
    && |block| == 64 && |l| == 16
    && (forall i | t <= i < 16 :: l[i] == Raw(block, i))
    && (forall j | 0 <= j < t && t <= j + 16 :: l[j % 16] == W(block, j))
  }

  lemma RingFirst(l: seq<Word>, block: seq<Byte>, t: nat)
    requires t < 16 && Ring(l, block, t)
    ensures Swapped(l[t]) == W(block, t) && Ring(l[t := Swapped(l[t])], block, t + 1)
  {
    hide LittleEndian, Swapped, BigEndian;
    SwappedIsBigEndian(block[4 * t], block[4 * t + 1], block[4 * t + 2], block[4 * t + 3]);
    RingKept(l, block, t, W(block, t));
  }

  lemma RingKept(l: seq<Word>, block: seq<Byte>, t: nat, x: Word)
    requires Ring(l, block, t) && x == W(block, t)
    ensures Ring(l[t % 16 := x], block, t + 1)
  {
    hide W, Raw;
    assert forall j | 0 <= j < t && t <= j + 15 :: j % 16 != t % 16;
  }

  lemma RingWord(l: seq<Word>, block: seq<Byte>, t: nat, j: nat)
    requires Ring(l, block, t) && j < t <= j + 16
    ensures l[j % 16] == W(block, j)
  {
  }

  lemma RingNext(l: seq<Word>, block: seq<Byte>, t: nat)
    requires 16 <= t && Ring(l, block, t)
    ensures var x := Mingled(l[(t + 13) % 16], l[(t + 8) % 16], l[(t + 2) % 16], l[t % 16]);
      x == W(block, t) && Ring(l[t % 16 := x], block, t + 1)
  {
    hide Mingled, Ring, BigEndian;
    assert |block| == 64 && |l| == 16 by { RingShape(l, block, t); }
    assert (t + 13) % 16 == (t - 3) % 16 && (t + 8) % 16 == (t - 8) % 16;
    assert (t + 2) % 16 == (t - 14) % 16 && t % 16 == (t - 16) % 16;
    RingWord(l, block, t, t - 3);
    RingWord(l, block, t, t - 8);
    RingWord(l, block, t, t - 14);
    RingWord(l, block, t, t - 16);
    RingKept(l, block, t, W(block, t));
  }

  lemma RingShape(l: seq<Word>, block: seq<Byte>, t: nat)
    requires Ring(l, block, t)
    ensures |block| == 64 && |l| == 16
  {
  }

  /** `blk0(i)` or `blk(i)`. */
  method Expand(l: array<Word>, i: nat, ghost block: seq<Byte>) returns (w: Word)
    requires l.Length == 16 && Ring(l[..], block, i)
    modifies l
    ensures Ring(l[..], block, i + 1) && w == W(block, i)
  {
    hide Ring, Swapped, Mingled, W;
    if i < 16 {
      RingFirst(l[..], block, i);
      w := Swapped(l[i]);
      ghost var was := l[..];
      l[i] := w;
      assert l[..] == was[i := w];
    } else {
      RingNext(l[..], block, i);
      w := Mingled(l[(i + 13) % 16], l[(i + 8) % 16], l[(i + 2) % 16], l[i % 16]);
      ghost var was := l[..];
      l[i % 16] := w;
      assert l[..] == was[i % 16 := w];
    }
  }

  /** The mixing function of the macros R0 to R4. */
  function Mix(i: nat, w: Word, x: Word, y: Word): (r: Word)
    ensures r == F(i, w, x, y)
  {
    ChooseIsCh(w, x, y);
    MajorityIsMaj(w, x, y);
    if i < 20 then Choose(w, x, y) else if i < 40 then Xor3(w, x, y)
    else if i < 60 then Majority(w, x, y) else Xor3(w, x, y)
  }

  /** One of the macros R0 to R4, by the number of the step: changes its fifth and second variable. */
  method Round(l: array<Word>, v: Word, w: Word, x: Word, y: Word, z: Word, i: nat, ghost block: seq<Byte>)
    returns (w': Word, z': Word)
    requires l.Length == 16 && Ring(l[..], block, i)
    modifies l
    ensures Ring(l[..], block, i + 1)
    ensures Regs(z', v, w', x, y) == Step(Regs(v, w, x, y, z), i, W(block, i))
  {
    hide Ring, Plus, Sum5, F, Rotl5, Rotl30, W;
    var blk := Expand(l, i, block);
    PlusIsSum(z, Mix(i, w, x, y), blk, K(i), Rotl5(v));
    z' := Plus(z, Mix(i, w, x, y), blk, K(i), Rotl5(v));
    w' := Rotl30(w);
  }

  /** Five steps, after which every variable has its own name back. */
  method FiveRounds(l: array<Word>, i: nat, r: Regs, ghost h: Regs, ghost block: seq<Byte>) returns (s: Regs)
    requires l.Length == 16 && Ring(l[..], block, i) && r == Rounds(h, block, i)
    modifies l
    ensures Ring(l[..], block, i + 5) && s == Rounds(h, block, i + 5)
  {
    hide Ring, Step, W;
    RingShape(l[..], block, i);
    FiveSteps(h, block, i);
    var a, b, c, d, e := r.a, r.b, r.c, r.d, r.e;
    b, e := Round(l, a, b, c, d, e, i, block);
    a, d := Round(l, e, a, b, c, d, i + 1, block);
    e, c := Round(l, d, e, a, b, c, i + 2, block);
    d, b := Round(l, c, d, e, a, b, i + 3, block);
    c, a := Round(l, b, c, d, e, a, i + 4, block);
    s := Regs(a, b, c, d, e);
  }

  lemma FiveSteps(h: Regs, block: seq<Byte>, i: nat)
    requires |block| == 64
    ensures var r1 := Step(Rounds(h, block, i), i, W(block, i));
      var r2 := Step(r1, i + 1, W(block, i + 1));
      var r3 := Step(r2, i + 2, W(block, i + 2));
      var r4 := Step(r3, i + 3, W(block, i + 3));
      Rounds(h, block, i + 5) == Step(r4, i + 4, W(block, i + 4))
  {
    hide Step, W;
    assert Rounds(h, block, i + 1) == Step(Rounds(h, block, i), i, W(block, i));
    assert Rounds(h, block, i + 2) == Step(Rounds(h, block, i + 1), i + 1, W(block, i + 1));
    assert Rounds(h, block, i + 3) == Step(Rounds(h, block, i + 2), i + 2, W(block, i + 2));
    assert Rounds(h, block, i + 4) == Step(Rounds(h, block, i + 3), i + 3, W(block, i + 3));
  }

  /** The words of a block, as the union shows them. */
  method Load(data: array<Byte>, from: nat) returns (l: array<Word>)
    requires from + 64 <= data.Length
    ensures fresh(l) && l.Length == 16 && Ring(l[..], data[from..from + 64], 0)
  {
    hide LittleEndian, W;
    ghost var block := data[from..from + 64];
    l := new Word[16];
    var i := 0;
    while i < 16
      invariant 0 <= i <= 16
      invariant forall j | 0 <= j < i :: l[j] == Raw(block, j)
    {
      var p := from + 4 * i;
      l[i] := LittleEndian(data[p], data[p + 1], data[p + 2], data[p + 3]);
      assert block[4 * i] == data[p] && block[4 * i + 1] == data[p + 1];
      assert block[4 * i + 2] == data[p + 2] && block[4 * i + 3] == data[p + 3];
      i := i + 1;
    }
  }

  /** A word as a little-endian machine writes it. */
  function LittleBytes(w: Word): (r: seq<Byte>)
    ensures |r| == 4
  {
    [WordBytes(w)[3], WordBytes(w)[2], WordBytes(w)[1], WordBytes(w)[0]]
  }

  /** What a block looks like afterwards: the last sixteen words of its schedule. */
  function Scrambled(block: seq<Byte>): (r: seq<Byte>)
    requires |block| == 64
    ensures |r| == 64
  {
    seq(64, k requires 0 <= k < 64 => LittleBytes(W(block, 64 + k / 4))[k % 4])
  }

  /** The ring takes the place of the block. */
  method Store(data: array<Byte>, from: nat, l: array<Word>)
    requires from + 64 <= data.Length && l.Length == 16
    modifies data
    ensures data[..from] == old(data[..from]) && data[from + 64..] == old(data[from + 64..])
    ensures forall k | 0 <= k < 64 :: data[from + k] == LittleBytes(l[k / 4])[k % 4]
  {
    hide LittleBytes;
    var i := 0;
    while i < 16
      invariant 0 <= i <= 16
      invariant data[..from] == old(data[..from]) && data[from + 64..] == old(data[from + 64..])
      invariant forall k | 0 <= k < 4 * i :: data[from + k] == LittleBytes(l[k / 4])[k % 4]
    {
      var b := LittleBytes(l[i]);
      var p := from + 4 * i;
      data[p], data[p + 1], data[p + 2], data[p + 3] := b[0], b[1], b[2], b[3];
      i := i + 1;
    }
  }

  lemma RingAtEnd(l: seq<Word>, block: seq<Byte>, i: nat)
    requires Ring(l, block, 80) && i < 16
    ensures |block| == 64 && |l| == 16 && l[i] == W(block, 64 + i)
  {
    hide W, Ring;
    RingShape(l, block, 80);
    assert (64 + i) % 16 == i;
    RingWord(l, block, 80, 64 + i);
  }

  /** `SHA1_Transform`: the compression of section 6.1.2 of FIPS 180-4; the block is overwritten. */
  method Transform(state: Regs, data: array<Byte>, from: nat) returns (r: Regs)
    requires from + 64 <= data.Length
    modifies data
    ensures r == Compress(state, old(data[from..from + 64]))
    ensures data[..from] == old(data[..from]) && data[from + 64..] == old(data[from + 64..])
    ensures data[from..from + 64] == Scrambled(old(data[from..from + 64]))
  {
    hide Ring, Step, W, WordBytes, LittleEndian, LittleBytes;
    ghost var block := data[from..from + 64];
    var l := Load(data, from);
    var s := state;
    var i := 0;
    while i < 80
      invariant 0 <= i <= 80 && i % 5 == 0
      invariant Ring(l[..], block, i) && s == Rounds(state, block, i)
      modifies l
    {
      s := FiveRounds(l, i, s, state, block);
      i := i + 5;
    }
    Store(data, from, l);
    forall k | 0 <= k < 64 ensures data[from + k] == Scrambled(block)[k] {
      RingAtEnd(l[..], block, k / 4);
    }
    r := Added(state, s);
  }
}
