/** What hashing does to a key that lies in memory: `SHA1_Update` compresses all whole blocks of its
    data but the first where they lie, and each of them is left holding the end of its schedule. No
    block but that of zeros survives this, so a key survives exactly if it is shorter than two
    blocks.

    The schedule is a linear recurrence over words, x(t) = r(x(t-3) + x(t-8) + x(t-14) + x(t-16)),
    where + is exclusive or and r rotates by one bit. Squaring it six times gives strides of 64. If
    every block word came back after 64 steps, all four terms would be equal and cancel. It comes
    back with its bytes in reverse; four sums of rotations, each finer than the one before, do not
    see that as long as the coarser one vanishes. */
module KeyLoss {
  import opened Sha1Spec
  import opened Sha1Rounds
  import opened Sha1Stream

  function Plus(a: Word, b: Word): Word { a ^ b }

  function Sum4(a: Word, b: Word, c: Word, d: Word): Word { Plus(Plus(a, b), Plus(c, d)) }

  function Rol16(x: Word): Word { (x << 16) | (x >> 16) }

  // ---------- single words ----------

  lemma Regroup(a: Word, b: Word, c: Word, d: Word)
    ensures Plus(Plus(a, b), Plus(c, d)) == Plus(Plus(a, c), Plus(b, d))
  {
    hide Plus;
    Bracket(a, b, Plus(c, d));
    Bracket(b, c, d);
    Swap(b, c);
    Bracket(c, b, d);
    Bracket(a, c, Plus(b, d));
  }

  lemma Bracket(a: Word, b: Word, c: Word)
    ensures Plus(Plus(a, b), c) == Plus(a, Plus(b, c))
  {
  }

  lemma Cancel(a: Word, b: Word, c: Word)
    ensures Plus(Plus(a, b), Plus(b, c)) == Plus(a, c)
  {
  }

  lemma SumOfEqual(a: Word)
    ensures Plus(a, a) == 0 && Plus(0, a) == a
  {
  }

  lemma Swap(a: Word, b: Word)
    ensures Plus(a, b) == Plus(b, a)
  {
  }

  lemma Rotl1Plus(a: Word, b: Word)
    ensures Rotl1(Plus(a, b)) == Plus(Rotl1(a), Rotl1(b))
  {
  }

  lemma Rol8Plus(a: Word, b: Word)
    ensures Rol8(Plus(a, b)) == Plus(Rol8(a), Rol8(b))
  {
  }

  lemma Rol16Plus(a: Word, b: Word)
    ensures Rol16(Plus(a, b)) == Plus(Rol16(a), Rol16(b))
  {
  }

  lemma RolsCommute(a: Word)
    ensures Rol8(Rotl1(a)) == Rotl1(Rol8(a)) && Rol16(Rotl1(a)) == Rotl1(Rol16(a))
  {
  }

  lemma RolTwice(a: Word)
    ensures Rol8(Rol8(a)) == Rol16(a) && Rol16(Rol16(a)) == a
  {
  }

  // ---------- sums of rotations ----------

  function Quarter(x: Word): Word { Plus(x, Rol8(x)) }

  function Half(x: Word): Word { Plus(x, Rol16(x)) }

  /** Four sums of rotations of a word by whole bytes, the last one the word itself. */
  function Level(n: nat, x: Word): Word {
    if n == 0 then Quarter(Half(x)) else if n == 1 then Half(x) else if n == 2 then Quarter(x) else x
  }

  lemma QuarterPlus(a: Word, b: Word)
    ensures Quarter(Plus(a, b)) == Plus(Quarter(a), Quarter(b))
  {
    hide Plus, Rol8;
    Rol8Plus(a, b);
    Regroup(a, b, Rol8(a), Rol8(b));
  }

  lemma HalfPlus(a: Word, b: Word)
    ensures Half(Plus(a, b)) == Plus(Half(a), Half(b))
  {
    hide Plus, Rol16;
    Rol16Plus(a, b);
    Regroup(a, b, Rol16(a), Rol16(b));
  }

  lemma LevelPlus(n: nat, a: Word, b: Word)
    ensures Level(n, Plus(a, b)) == Plus(Level(n, a), Level(n, b))
  {
    hide Plus, Quarter, Half;
    HalfPlus(a, b);
    QuarterPlus(a, b);
    QuarterPlus(Half(a), Half(b));
  }

  lemma LevelSum(n: nat, a: Word, b: Word, c: Word, d: Word)
    ensures Level(n, Sum4(a, b, c, d)) == Sum4(Level(n, a), Level(n, b), Level(n, c), Level(n, d))
  {
    hide Plus, Level;
    LevelPlus(n, Plus(a, b), Plus(c, d));
    LevelPlus(n, a, b);
    LevelPlus(n, c, d);
  }

  lemma LevelRotated(n: nat, x: Word)
    ensures Level(n, Rotl1(x)) == Rotl1(Level(n, x))
  {
    hide Plus, Rotl1, Rol8, Rol16;
    RolsCommute(x);
    Rotl1Plus(x, Rol8(x));
    Rotl1Plus(x, Rol16(x));
    RolsCommute(Half(x));
    Rotl1Plus(Half(x), Rol8(Half(x)));
  }

  function Even(x: Word): Word { x & 0x00ff00ff }

  function Odd(x: Word): Word { x & 0xff00ff00 }

  /** Reversing the bytes moves every other one up and the others down. */
  lemma SwappedParts(x: Word)
    ensures x == Plus(Even(x), Odd(x)) && Swapped(x) == Plus(Rol24(Even(x)), Rol8(Odd(x)))
  {
  }

  lemma Rol24Is(x: Word)
    ensures Rol24(x) == Rol8(Rol16(x)) && Rol16(Rol8(x)) == Rol8(Rol16(x))
  {
  }

  /** Half of a word does not change when it is rotated by half. */
  lemma HalfRolled(x: Word)
    ensures Rol16(Half(x)) == Half(x) && Half(Rol16(x)) == Half(x) && Half(Rol8(x)) == Rol8(Half(x))
  {
    hide Plus, Rol8, Rol16;
    Rol16Plus(x, Rol16(x));
    RolTwice(x);
    Swap(x, Rol16(x));
    Rol8Plus(x, Rol16(x));
    Rol24Is(x);
  }

  /** Reversing the bytes moves the sums of opposite bytes by one. */
  lemma HalfSwapped(x: Word)
    ensures Half(Swapped(x)) == Rol8(Half(x)) && Rol16(Half(x)) == Half(x)
  {
    hide Plus, Rol8, Rol16, Rol24, Swapped, Half, Even, Odd;
    var e, o := Even(x), Odd(x);
    SwappedParts(x);
    HalfRolled(x);
    Rol24Is(e);
    HalfRolled(Rol16(e));
    HalfRolled(e);
    HalfRolled(o);
    HalfPlus(Rol24(e), Rol8(o));
    HalfPlus(e, o);
    Rol8Plus(Half(e), Half(o));
  }

  lemma SwappedOdd(x: Word)
    requires Half(x) == 0
    ensures Quarter(Swapped(x)) == Quarter(x)
  {
  }

  lemma SwappedEven(x: Word)
    requires Quarter(x) == 0
    ensures Swapped(x) == x
  {
  }

  /** A level does not see the order of the bytes where the level before vanishes. */
  lemma LevelSwapped(n: nat, x: Word)
    requires n <= 3 && (n > 0 ==> Level(n - 1, x) == 0)
    ensures Level(n, Swapped(x)) == Level(n, x)
  {
    hide Plus, Rol8, Rol16, Swapped, Half;
    var h := Half(x);
    HalfSwapped(x);
    if n <= 1 {
      RolTwice(h);
      Swap(h, Rol8(h));
      if n == 1 {
        SameIfSumZero(h, Rol8(h));
      }
    } else if n == 2 {
      SwappedOdd(x);
    } else {
      SwappedEven(x);
    }
  }

  lemma SameIfSumZero(a: Word, b: Word)
    requires Plus(a, b) == 0
    ensures a == b
  {
  }

  // ---------- rotations by powers of two ----------

  function Power(j: nat): (p: nat)
    ensures p > 0
  {
    if j == 0 then 1 else 2 * Power(j - 1)
  }

  /** The rotation by one bit, 2^j times. */
  function Rot(j: nat, x: Word): Word {
    if j == 0 then Rotl1(x) else Rot(j - 1, Rot(j - 1, x))
  }

  lemma {:induction false} RotPlus(j: nat, a: Word, b: Word)
    ensures Rot(j, Plus(a, b)) == Plus(Rot(j, a), Rot(j, b))
  {
    hide Plus, Rotl1;
    if j == 0 {
      Rotl1Plus(a, b);
    } else {
      RotPlus(j - 1, a, b);
      RotPlus(j - 1, Rot(j - 1, a), Rot(j - 1, b));
    }
  }

  lemma RotSum(j: nat, a: Word, b: Word, c: Word, d: Word)
    ensures Rot(j, Sum4(a, b, c, d)) == Sum4(Rot(j, a), Rot(j, b), Rot(j, c), Rot(j, d))
  {
    hide Plus, Rot;
    RotPlus(j, Plus(a, b), Plus(c, d));
    RotPlus(j, a, b);
    RotPlus(j, c, d);
  }

  lemma FourEqual(a: Word)
    ensures Sum4(a, a, a, a) == 0
  {
    hide Plus;
    SumOfEqual(a);
    SumOfEqual(0);
  }

  /** Two of four sums: what they share cancels. */
  lemma TwoRows(a: Word, ab: Word, b: Word, ac: Word, ad: Word, bc: Word, bd: Word)
    ensures Plus(Sum4(a, ab, ac, ad), Sum4(ab, b, bc, bd)) == Plus(Plus(a, b), Plus(Plus(ac, bc), Plus(ad, bd)))
  {
    hide Plus;
    Regroup(Plus(a, ab), Plus(ac, ad), Plus(ab, b), Plus(bc, bd));
    Cancel(a, ab, b);
    Regroup(ac, ad, bc, bd);
  }

  /** Squaring a sum of four: the mixed terms cancel. */
  lemma Squared(a: Word, b: Word, c: Word, d: Word, ab: Word, ac: Word, ad: Word, bc: Word, bd: Word, cd: Word)
    ensures Sum4(Sum4(a, ab, ac, ad), Sum4(ab, b, bc, bd), Sum4(ac, bc, c, cd), Sum4(ad, bd, cd, d))
      == Sum4(a, b, c, d)
  {
    hide Plus;
    TwoRows(a, ab, b, ac, ad, bc, bd);
    var u := Plus(Plus(ac, bc), Plus(ad, bd));
    Regroup(Plus(ac, bc), Plus(c, cd), Plus(ad, bd), Plus(cd, d));
    Cancel(c, cd, d);
    Cancel(Plus(a, b), u, Plus(c, d));
  }

  // ---------- the schedule at a level ----------

  function X(n: nat, block: seq<Byte>, t: nat): Word
    requires |block| == 64
  {
    Level(n, W(block, t))
  }

  /** The recurrence with stride p, which is 2^j: what is p steps before stands for one step before. */
  ghost predicate Strides(n: nat, block: seq<Byte>, j: nat, p: nat, t: nat)
    requires |block| == 64 && t >= 16 * p
  {
    X(n, block, t) == Rot(j, Sum4(X(n, block, t - 3 * p), X(n, block, t - 8 * p), X(n, block, t - 14 * p),
                                  X(n, block, t - 16 * p)))
  }

  lemma PlainPlus(a: Word, b: Word)
    ensures Plus(a, b) == a ^ b
  {
  }

  lemma MingledIs(a: Word, b: Word, c: Word, d: Word)
    ensures Mingled(a, b, c, d) == Rotl1(Sum4(a, b, c, d))
  {
    hide Plus, Rotl1;
    PlainPlus(a, b);
    PlainPlus(Plus(a, b), c);
    PlainPlus(Plus(Plus(a, b), c), d);
    Bracket(Plus(a, b), c, d);
  }

  lemma StrideOne(n: nat, block: seq<Byte>, t: nat)
    requires |block| == 64 && t >= 16
    ensures Strides(n, block, 0, 1, t)
  {
    hide Level, Sum4, Rotl1, Mingled;
    var a, b, c, d := W(block, t - 3), W(block, t - 8), W(block, t - 14), W(block, t - 16);
    MingledIs(a, b, c, d);
    LevelRotated(n, Sum4(a, b, c, d));
    LevelSum(n, a, b, c, d);
  }

  lemma {:induction false} Stride(n: nat, block: seq<Byte>, j: nat, p: nat, t: nat)
    requires |block| == 64 && p == Power(j) && t >= 16 * p
    ensures Strides(n, block, j, p, t)
    decreases j
  {
    hide X, Sum4, Rotl1;
    if j == 0 {
      StrideOne(n, block, t);
    } else {
      var q := Power(j - 1);
      Stride(n, block, j - 1, q, t);
      Stride(n, block, j - 1, q, t - 3 * q);
      Stride(n, block, j - 1, q, t - 8 * q);
      Stride(n, block, j - 1, q, t - 14 * q);
      Stride(n, block, j - 1, q, t - 16 * q);
      DoubleStride(n, block, j, q, t);
    }
  }

  lemma DoubleStride(n: nat, block: seq<Byte>, j: nat, q: nat, t: nat)
    requires |block| == 64 && j > 0 && t >= 32 * q
    requires Strides(n, block, j - 1, q, t) && Strides(n, block, j - 1, q, t - 3 * q)
    requires Strides(n, block, j - 1, q, t - 8 * q) && Strides(n, block, j - 1, q, t - 14 * q)
    requires Strides(n, block, j - 1, q, t - 16 * q)
    ensures Strides(n, block, j, 2 * q, t)
  {
    hide X, Sum4, Rotl1;
    var a, b, c, d := X(n, block, t - 6 * q), X(n, block, t - 16 * q), X(n, block, t - 28 * q), X(n, block, t - 32 * q);
    var ab, ac, ad := X(n, block, t - 11 * q), X(n, block, t - 17 * q), X(n, block, t - 19 * q);
    var bc, bd, cd := X(n, block, t - 22 * q), X(n, block, t - 24 * q), X(n, block, t - 30 * q);
    RotSum(j - 1, Sum4(a, ab, ac, ad), Sum4(ab, b, bc, bd), Sum4(ac, bc, c, cd), Sum4(ad, bd, cd, d));
    Squared(a, b, c, d, ab, ac, ad, bc, bd, cd);
  }

  // ---------- no block survives ----------

  /** The words of the block come back after 64 steps, with their bytes in reverse. */
  ghost predicate Fixed(block: seq<Byte>)
    requires |block| == 64
  {
    forall i: nat | i < 16 :: W(block, 64 + i) == Swapped(W(block, i))
  }

  ghost predicate Vanishes(n: nat, block: seq<Byte>)
    requires |block| == 64
  {
    forall t: nat :: X(n, block, t) == 0
  }

  lemma {:induction false} Period(n: nat, block: seq<Byte>, t: nat)
    requires |block| == 64 && n <= 3 && Fixed(block) && (n > 0 ==> Vanishes(n - 1, block))
    ensures X(n, block, t + 64) == X(n, block, t)
    decreases t
  {
    hide Level, Sum4, Rotl1, W, Swapped;
    if t < 16 {
      assert W(block, 64 + t) == Swapped(W(block, t));
      if n > 0 {
        assert X(n - 1, block, t) == 0;
      }
      LevelSwapped(n, W(block, t));
    } else {
      StrideOne(n, block, t);
      StrideOne(n, block, t + 64);
      Period(n, block, t - 3);
      Period(n, block, t - 8);
      Period(n, block, t - 14);
      Period(n, block, t - 16);
    }
  }

  lemma {:induction false} Periods(n: nat, block: seq<Byte>, t: nat, m: nat)
    requires |block| == 64 && n <= 3 && Fixed(block) && (n > 0 ==> Vanishes(n - 1, block))
    ensures X(n, block, t + 64 * m) == X(n, block, t)
    decreases m
  {
    hide X, Fixed, Vanishes;
    if m > 0 {
      Periods(n, block, t, m - 1);
      Period(n, block, t + 64 * (m - 1));
    }
  }

  lemma NextVanishes(n: nat, block: seq<Byte>)
    requires |block| == 64 && n <= 3 && Fixed(block) && (n > 0 ==> Vanishes(n - 1, block))
    ensures Vanishes(n, block)
  {
    hide X, Fixed, Sum4, Rotl1, Rot;
    assert Power(6) == 64 by {
      assert Power(1) == 2 && Power(2) == 4 && Power(3) == 8 && Power(4) == 16 && Power(5) == 32;
    }
    forall t: nat ensures X(n, block, t) == 0 {
      Stride(n, block, 6, 64, t + 1024);
      Periods(n, block, t, 16);
      Periods(n, block, t, 13);
      Periods(n, block, t, 8);
      Periods(n, block, t, 2);
      FourEqual(X(n, block, t));
      RotZero(6);
    }
  }

  lemma RotZero(j: nat)
    ensures Rot(j, 0) == 0
  {
    hide Sum4;
    FourEqual(0);
    RotSum(j, 0, 0, 0, 0);
    FourEqual(Rot(j, 0));
  }

  /** Only the block of zeros comes back. */
  lemma FixedIsZero(block: seq<Byte>, i: nat)
    requires |block| == 64 && Fixed(block) && i < 16
    ensures W(block, i) == 0
  {
    hide Fixed, W;
    NextVanishes(0, block);
    NextVanishes(1, block);
    NextVanishes(2, block);
    NextVanishes(3, block);
    assert X(3, block, i) == 0;
  }

  // ---------- blocks ----------

  lemma WordFromBytes(w: Word, b0: Byte, b1: Byte, b2: Byte, b3: Byte)
    requires LittleBytes(w) == [b0, b1, b2, b3]
    ensures w == Swapped(BigEndian(b0, b1, b2, b3))
  {
    var r := LittleBytes(w);
    assert r[0] == b0 && r[1] == b1 && r[2] == b2 && r[3] == b3;
    SwappedBytes(w);
  }

  lemma SwappedBytes(w: Word)
    ensures w == Swapped(BigEndian((w & 0xff) as Byte, ((w >> 8) & 0xff) as Byte, ((w >> 16) & 0xff) as Byte,
                                   (w >> 24) as Byte))
  {
  }

  lemma ZeroBytes(b0: Byte, b1: Byte, b2: Byte, b3: Byte)
    requires BigEndian(b0, b1, b2, b3) == 0
    ensures b0 == b1 == b2 == b3 == 0
  {
  }

  /** A block that is scrambled to itself is the block of zeros. */
  lemma OnlyZerosStay(block: seq<Byte>)
    requires |block| == 64 && Scrambled(block) == block
    ensures forall k | 0 <= k < 64 :: block[k] == 0
  {
    hide LittleBytes, Swapped, BigEndian;
    forall i: nat | i < 16 ensures W(block, 64 + i) == Swapped(W(block, i)) {
      FourBytes(block, i);
      WordFromBytes(W(block, 64 + i), block[4 * i], block[4 * i + 1], block[4 * i + 2], block[4 * i + 3]);
    }
    forall k | 0 <= k < 64 ensures block[k] == 0 {
      var i := k / 4;
      FixedIsZero(block, i);
      ZeroBytes(block[4 * i], block[4 * i + 1], block[4 * i + 2], block[4 * i + 3]);
      assert k == 4 * i || k == 4 * i + 1 || k == 4 * i + 2 || k == 4 * i + 3;
    }
  }

  lemma FourBytes(block: seq<Byte>, i: nat)
    requires |block| == 64 && Scrambled(block) == block && i < 16
    ensures LittleBytes(W(block, 64 + i)) == [block[4 * i], block[4 * i + 1], block[4 * i + 2], block[4 * i + 3]]
  {
    hide LittleBytes, W, Scrambled;
    ScrambledAt(block, i, 0);
    ScrambledAt(block, i, 1);
    ScrambledAt(block, i, 2);
    ScrambledAt(block, i, 3);
  }

  lemma ScrambledAt(block: seq<Byte>, i: nat, k: nat)
    requires |block| == 64 && i < 16 && k < 4
    ensures Scrambled(block)[4 * i + k] == LittleBytes(W(block, 64 + i))[k]
  {
    hide LittleBytes, W;
    assert (4 * i + k) / 4 == i && (4 * i + k) % 4 == k;
  }

  // ---------- keys ----------

  /** The characters up to the first zero: a C string. */
  function Str(s: seq<Byte>): (r: seq<Byte>)
    ensures |r| <= |s| && r <= s
  {
    if s == [] || s[0] == 0 then [] else [s[0]] + Str(s[1..])
  }

  ghost predicate IsString(s: seq<Byte>) {
    forall k | 0 <= k < |s| :: s[k] != 0
  }

  lemma {:induction false} StrIsString(s: seq<Byte>)
    ensures IsString(Str(s)) && (|Str(s)| < |s| ==> s[|Str(s)|] == 0)
    ensures IsString(s) ==> Str(s) == s
  {
    if s != [] && s[0] != 0 {
      StrIsString(s[1..]);
    }
  }

  /** What follows a zero does not count. */
  lemma {:induction false} StrEnds(s: seq<Byte>, t: seq<Byte>)
    requires t != [] && t[0] == 0
    ensures Str(s + t) == Str(s)
  {
    if s == [] {
      assert s + t == t;
    } else if s[0] != 0 {
      assert (s + t)[1..] == s[1..] + t;
      StrEnds(s[1..], t);
    }
  }

  /** The key after it has been hashed: overwritten, and perhaps cut short by a zero. */
  function NextKey(key: seq<Byte>): (r: seq<Byte>)
    ensures |r| <= |key| && (|key| < 128 && IsString(key) ==> r == key)
  {
    StrIsString(key);
    Str(Overwritten(0, key))
  }

  lemma LongStringsChange(s: seq<Byte>)
    requires |s| >= 64 && IsString(s)
    ensures Spoiled(s) != s
  {
    hide Scrambled;
    var block := s[..64];
    assert (Scrambled(block) + Spoiled(s[64..]))[..64] == Scrambled(block);
    FirstOctet(block);
  }

  lemma FirstOctet(block: seq<Byte>)
    requires |block| == 64
    ensures Scrambled(block) == block ==> block[0] == 0
  {
    hide Scrambled;
    if Scrambled(block) == block {
      OnlyZerosStay(block);
    }
  }

  /** A key survives hashing exactly if it is shorter than 128 characters. */
  lemma KeySurvives(key: seq<Byte>)
    requires IsString(key)
    ensures NextKey(key) == key <==> |key| < 128
  {
    hide Spoiled;
    if |key| >= 128 {
      var tail, over := key[64..], Overwritten(0, key);
      LongStringsChange(tail);
      assert over == key[..64] + Spoiled(tail) && over[64..] == Spoiled(tail);
      StrIsString(over);
      assert NextKey(key) <= over;
      assert NextKey(key) == key ==> over == key;
    }
  }
}
