/** The Internet checksum three times: `ip_checksum` of the control plane (udp.c), `checksum` of
    the hypervisor (inject.c), and the incremental update of `lisp_input` (core.patch). The
    reference is the ones'-complement sum of RFC 1071, one end-around carry at a time. */
module Checksums {

  type Word16 = x: int | 0 <= x < 65536 witness 0

  /** Ones'-complement addition: a carry out of bit 15 is added back at bit 0. */
  function OnesAdd(x: Word16, y: Word16): Word16 {
    if x + y < 65536 then x + y else x + y - 65535
  }

  function OnesSum(w: seq<Word16>): Word16 {
    if w == [] then 0 else OnesAdd(OnesSum(w[..|w| - 1]), w[|w| - 1])
  }

  function Sum(w: seq<Word16>): nat {
    if w == [] then 0 else Sum(w[..|w| - 1]) + w[|w| - 1]
  }

  /** The 16-bit representative of a sum; 0 only for 0. */
  function Canon(s: nat): Word16 {
    if s == 0 then 0 else (s - 1) % 65535 + 1
  }

  function Fold(s: nat): nat {
    s % 65536 + s / 65536
  }

  lemma CanonAdd(s: nat, x: Word16)
    ensures Canon(s + x) == OnesAdd(Canon(s), x)
  {
    if s > 0 {
      var q, r := (s - 1) / 65535, (s - 1) % 65535;
      assert s - 1 == 65535 * q + r;
      if x > 0 {
        assert s + x - 1 == 65535 * q + (r + x);
        if r + x >= 65535 {
          assert s + x - 1 == 65535 * (q + 1) + (r + x - 65535);
        }
      }
    }
  }

  lemma {:induction false} OnesSumIsCanon(w: seq<Word16>)
    ensures OnesSum(w) == Canon(Sum(w))
  {
    if w != [] {
      OnesSumIsCanon(w[..|w| - 1]);
      CanonAdd(Sum(w[..|w| - 1]), w[|w| - 1]);
    }
  }

  /** Folding keeps the ones'-complement value. */
  lemma FoldKeeps(s: nat)
    ensures Canon(Fold(s)) == Canon(s) && (s >= 65536 ==> Fold(s) < s)
  {
    var h, l := s / 65536, s % 65536;
    assert s == 65535 * h + (h + l);
    CanonShift(h + l, h);
  }

  lemma CanonShift(s: nat, k: nat)
    requires s > 0 || k == 0
    ensures Canon(65535 * k + s) == Canon(s)
  {
    if s > 0 {
      assert (65535 * k + (s - 1)) % 65535 == (s - 1) % 65535;
    }
  }

  lemma CanonSmall(s: nat)
    requires s < 65536
    ensures Canon(s) == s
  {
  }

  /** The hypervisor's `checksum`: folds as soon as bit 31 is set, then until nothing is left. */
  method Checksum(subject: seq<Word16>) returns (r: Word16)
    ensures r == 65535 - OnesSum(subject)
  {
    hide Canon;
    var sum: nat := 0;
    var i := 0;
    assert Canon(0) == OnesSum(subject[..0]) by { CanonSmall(0); }
    while i < |subject|
      invariant 0 <= i <= |subject| && 0 <= sum < 0x8000_0000
      invariant Canon(sum) == OnesSum(subject[..i])
    {
      CanonAdd(sum, subject[i]);
      assert subject[..i + 1][..i] == subject[..i];
      sum := sum + subject[i];
      if sum / 0x8000_0000 % 2 == 1 {
        FoldKeeps(sum);
        sum := sum % 65536 + sum / 65536;
      }
      i := i + 1;
    }
    assert subject[..i] == subject;
    while sum / 65536 > 0
      invariant 0 <= sum && Canon(sum) == OnesSum(subject)
      decreases sum
    {
      FoldKeeps(sum);
      sum := sum % 65536 + sum / 65536;
    }
    CanonSmall(sum);
    r := 65535 - sum;
  }

  // ---------- two folds ----------

  /** The end of `ip_checksum` before the complement, cut to 16 bits. */
  function TwoFold(s: nat): Word16 {
    var t := s / 65536 + s % 65536;
    (t + t / 65536) % 65536
  }

  /** The width of `unsigned long`. */
  datatype Width = Bits32 | Bits64

  function Wrap(s: nat, width: Width): nat {
    if width == Bits32 then s % 0x1_0000_0000 else s % 0x1_0000_0000_0000_0000
  }

  /** A sum is kept as it is while it fits, and starts again at zero behind the last number. */
  lemma WrapMeans(s: nat)
    ensures s < 0x1_0000_0000 ==> Wrap(s, Bits32) == s
    ensures s < 0x1_0000_0000 ==> Wrap(0x1_0000_0000 + s, Bits32) == s
    ensures s < 0x1_0000_0000_0000_0000 ==> Wrap(s, Bits64) == s
    ensures s < 0x1_0000_0000_0000_0000 ==> Wrap(0x1_0000_0000_0000_0000 + s, Bits64) == s
  {
  }

  function WrappedSum(w: seq<Word16>, width: Width): nat {
    if w == [] then 0 else Wrap(WrappedSum(w[..|w| - 1], width) + w[|w| - 1], width)
  }

  /** `ip_checksum`: sums everything, then folds twice. */
  method IpChecksum(buf: seq<Word16>, width: Width) returns (r: Word16)
    ensures r == 65535 - TwoFold(WrappedSum(buf, width))
  {
    hide Wrap, TwoFold;
    var sum: nat := 0;
    var i := 0;
    while i < |buf|
      invariant 0 <= i <= |buf| && sum == WrappedSum(buf[..i], width)
    {
      assert buf[..i + 1][..i] == buf[..i];
      sum := Wrap(sum + buf[i], width);
      i := i + 1;
    }
    assert buf[..i] == buf;
    FoldsTwice(sum);
    sum := sum / 65536 + sum % 65536;
    sum := sum + sum / 65536;
    r := 65535 - sum % 65536;
  }

  lemma FoldsTwice(s: nat)
    ensures var once := s / 65536 + s % 65536; TwoFold(s) == (once + once / 65536) % 65536
  {
  }

  lemma {:induction false} NoWrap(w: seq<Word16>, width: Width)
    requires Sum(w) < 0x1_0000_0000 || (width == Bits64 && Sum(w) < 0x1_0000_0000_0000_0000)
    ensures WrappedSum(w, width) == Sum(w)
  {
    if w != [] {
      NoWrap(w[..|w| - 1], width);
    }
  }

  const LAST: int := 0x1_0000_FFFE

  lemma TwoFolds(s: nat)
    requires s <= LAST
    ensures TwoFold(s) == Fold(Fold(s)) && Fold(Fold(s)) < 65536
  {
    var t := Fold(s);
    assert t <= 131070;
    assert t / 65536 <= 1;
  }

  /** Two folds are enough for every sum up to 2^32 + 65534, and not for the next one. */
  lemma TwoFoldEnough(s: nat)
    ensures s <= LAST ==> TwoFold(s) == Canon(s)
    ensures s == LAST + 1 ==> TwoFold(s) != Canon(s)
  {
    if s <= LAST {
      hide TwoFold, Canon, Fold;
      FoldKeeps(s);
      FoldKeeps(Fold(s));
      TwoFolds(s);
      CanonSmall(Fold(Fold(s)));
    }
  }

  lemma {:induction false} SumBound(w: seq<Word16>)
    ensures Sum(w) <= 65535 * |w|
  {
    if w != [] {
      SumBound(w[..|w| - 1]);
    }
  }

  /** `ip_checksum` and `checksum` agree, and give the checksum of RFC 1071, for up to 65537
      words, whatever the width of `unsigned long`. */
  lemma ChecksumsAgree(w: seq<Word16>, width: Width)
    requires |w| <= 65537 || (width == Bits64 && |w| <= 65538)
    ensures TwoFold(WrappedSum(w, width)) == OnesSum(w)
  {
    hide TwoFold, Canon, OnesSum, WrappedSum, Sum;
    SumBound(w);
    OnesSumIsCanon(w);
    TwoFoldEnough(Sum(w));
    NoWrap(w, width);
  }

  function Repeat(n: nat, x: Word16): seq<Word16> {
    seq(n, _ => x)
  }

  lemma {:induction false} SumRepeat(n: nat, x: Word16)
    ensures Sum(Repeat(n, x)) == n * x
  {
    if n > 0 {
      SumRepeat(n - 1, x);
      assert Repeat(n, x)[..n - 1] == Repeat(n - 1, x);
    }
  }

  /** Zero words change neither sum. */
  lemma WrapAgain(w: seq<Word16>, width: Width)
    requires w != []
    ensures Wrap(WrappedSum(w, width), width) == WrappedSum(w, width)
  {
  }

  lemma {:induction false} SumZeros(w: seq<Word16>, n: nat, width: Width)
    requires w != []
    ensures Sum(w + Repeat(n, 0)) == Sum(w) && WrappedSum(w + Repeat(n, 0), width) == WrappedSum(w, width)
  {
    hide Wrap;
    if n > 0 {
      SumZeros(w, n - 1, width);
      WrapAgain(w, width);
      assert (w + Repeat(n, 0))[..|w| + n - 1] == w + Repeat(n - 1, 0);
    } else {
      assert w + Repeat(0, 0) == w;
    }
  }

  /** Over every sequence of n words, does `ip_checksum` give the checksum? */
  ghost predicate RightFor(n: nat, width: Width) {
    forall w: seq<Word16> | |w| == n :: TwoFold(WrappedSum(w, width)) == OnesSum(w)
  }

  /** One word more than the bound: the sum is 2^32 - 1, then wraps. */
  lemma WrongBeyond32(n: nat)
    requires n >= 65538
    ensures !RightFor(n, Bits32)
  {
    var u := Repeat(65537, 65535);
    SumRepeat(65537, 65535);
    NoWrap(u, Bits32);
    var v := u + [65535];
    assert v[..65537] == u;
    var w := v + Repeat(n - 65538, 0);
    SumZeros(v, n - 65538, Bits32);
    OnesSumIsCanon(w);
    assert |w| == n && WrappedSum(w, Bits32) == 65534 && Sum(w) == LAST;
    WrapFacts();
    hide WrappedSum, Sum, OnesSum, TwoFold, Canon;
  }

  lemma WrapFacts()
    ensures TwoFold(65534) == 65534 && Canon(LAST) == 65535
  {
    assert LAST - 1 == 65535 * 65537 + 65534;
  }

  /** Two words more, and no wrap: the second fold carries again. */
  lemma WrongBeyond64(n: nat)
    requires n >= 65539
    ensures !RightFor(n, Bits64)
  {
    var u := Repeat(65538, 65535);
    SumRepeat(65538, 65535);
    var v := u + [1];
    assert v[..65538] == u;
    NoWrap(v, Bits64);
    var w := v + Repeat(n - 65539, 0);
    SumZeros(v, n - 65539, Bits64);
    OnesSumIsCanon(w);
    assert |w| == n && WrappedSum(w, Bits64) == LAST + 1 == Sum(w);
    hide WrappedSum, Sum, OnesSum;
    TwoFoldEnough(LAST + 1);
  }

  /** The bound on the length is what makes two folds enough: 65537 words where the sum wraps at
      2^32, and one more where it does not. */
  lemma WordBound(n: nat, width: Width)
    ensures RightFor(n, width) <==> n <= if width == Bits32 then 65537 else 65538
  {
    hide TwoFold, WrappedSum, OnesSum;
    if n <= if width == Bits32 then 65537 else 65538 {
      forall w: seq<Word16> | |w| == n ensures TwoFold(WrappedSum(w, width)) == OnesSum(w) {
        ChecksumsAgree(w, width);
      }
    } else if width == Bits32 {
      WrongBeyond32(n);
    } else {
      WrongBeyond64(n);
    }
  }

  // ---------- the TTL rewrite ----------

  /** A header is valid when its words, checksum included, sum to minus zero. */
  ghost predicate ValidHeader(h: seq<Word16>) {
    OnesSum(h) == 65535
  }

  /** One word of a header replaced. */
  lemma {:induction false} SumReplaced(w: seq<Word16>, i: nat, x: Word16)
    requires i < |w|
    ensures Sum(w[i := x]) == Sum(w) - w[i] + x
  {
    var n := |w| - 1;
    if i == n {
      assert w[i := x][..n] == w[..n];
    } else {
      SumReplaced(w[..n], i, x);
      assert w[i := x][..n] == w[..n][i := x];
    }
  }

  /** Only sums that are positive multiples of 65535 are minus zero. */
  lemma MinusZero(s: nat)
    ensures Canon(s) == 65535 <==> s > 0 && s % 65535 == 0
  {
    if s > 0 {
      assert s % 65535 == 0 <==> (s - 1) % 65535 == 65534;
    }
  }

  /** A header filled with its checksum in a place that was zero is valid. */
  lemma FilledIsValid(w: seq<Word16>, i: nat)
    requires i < |w| && w[i] == 0
    ensures ValidHeader(w[i := 65535 - OnesSum(w)])
  {
    var c := 65535 - OnesSum(w);
    OnesSumIsCanon(w);
    OnesSumIsCanon(w[i := c]);
    SumReplaced(w, i, c);
    var s := Sum(w);
    hide Sum, OnesSum;
    CanonIsCongruent(s);
    MinusZero(s + c);
  }

  lemma CanonIsCongruent(s: nat)
    ensures (s + 65535 - Canon(s)) % 65535 == 0 && s + 65535 - Canon(s) > 0
  {
    if s > 0 {
      assert s - 1 == (s - 1) / 65535 * 65535 + (s - 1) % 65535;
    }
  }

  /** The machine's byte order decides how the two bytes of a word weigh. */
  datatype Order = Little | Big

  function TtlOf(w: Word16, o: Order): nat {
    if o == Little then w % 256 else w / 256
  }

  function WithTtl(w: Word16, o: Order, ttl: nat): Word16
    requires ttl < 256
  {
    if o == Little then w / 256 * 256 + ttl else w % 256 + 256 * ttl
  }

  /** `htons(delta << 8)`, its argument cut to 16 bits. */
  function Shifted(delta: nat, o: Order): Word16 {
    if o == Little then delta % 256 else delta % 256 * 256
  }

  /** The checksum update: `~` is taken in `int`, so subtracting it adds one more. */
  function Updated(sum: Word16, m: Word16): Word16 {
    if sum >= 65535 - m then (sum + m + 1) % 65536 else (sum + m) % 65536
  }

  /** The TTL of the outer header goes into the inner one (`lisp_input`); word 4 of a header
      holds TTL and protocol, word 5 the checksum. */
  method CopyBackTtl(ip: array<Word16>, saved: nat, o: Order)
    requires ip.Length >= 10 && saved < 256
    modifies ip
    ensures ip[..] == AfterCopyBack(old(ip[..]), saved, o)
  {
    var delta := (TtlOf(ip[4], o) - saved) % 65536;
    ip[4] := WithTtl(ip[4], o, saved);
    if ip[5] >= 65535 - Shifted(delta, o) {
      ip[5] := (ip[5] - (-(Shifted(delta, o) + 1))) % 65536;
    } else {
      ip[5] := (ip[5] + Shifted(delta, o)) % 65536;
    }
  }

  function AfterCopyBack(h: seq<Word16>, saved: nat, o: Order): seq<Word16>
    requires |h| >= 10 && saved < 256
  {
    var delta := (TtlOf(h[4], o) - saved) % 65536;
    h[4 := WithTtl(h[4], o, saved)][5 := Updated(h[5], Shifted(delta, o))]
  }

  /** The header has the TTL that was saved; the protocol stays, and so does every word but that of the TTL
      and the checksum. */
  lemma CopyBackFields(h: seq<Word16>, saved: nat, o: Order)
    requires |h| >= 10 && saved < 256
    ensures var g := AfterCopyBack(h, saved, o);
      && |g| == |h| && TtlOf(g[4], o) == saved && g[4] - WithTtl(0, o, saved) == h[4] - WithTtl(0, o, TtlOf(h[4], o))
      && forall i | 0 <= i < |h| && i != 4 && i != 5 :: g[i] == h[i]
  {
    hide Updated, Shifted;
  }

  lemma {:induction false} SumAtLeast(w: seq<Word16>, i: nat)
    requires i < |w|
    ensures Sum(w) >= w[i]
  {
    if i < |w| - 1 {
      SumAtLeast(w[..|w| - 1], i);
    }
  }

  lemma UpdatedBy(c: Word16, m: Word16)
    ensures Updated(c, m) == c + m || Updated(c, m) == c + m - 65535
  {
  }

  /** The word loses what the checksum gains, unless the difference was negative. */
  lemma TtlStep(w: Word16, saved: nat, o: Order)
    requires saved < 256
    ensures WithTtl(w, o, saved) - w + Shifted((TtlOf(w, o) - saved) % 65536, o)
         == if TtlOf(w, o) >= saved then 0 else if o == Little then 256 else 65536
  {
    var d := TtlOf(w, o) - saved;
    assert d % 65536 == if d >= 0 then d else d + 65536;
    assert d % 65536 % 256 == if d >= 0 then d else d + 256;
  }

  /** How the rewrite changes the sum of the header. */
  lemma SumAfter(h: seq<Word16>, saved: nat, o: Order)
    requires |h| >= 10 && saved < 256
    ensures var ttl, s, t := TtlOf(h[4], o), Sum(h), Sum(AfterCopyBack(h, saved, o));
      var d := if ttl >= saved then 0 else if o == Little then 256 else 65536;
      t == s + d || t == s + d - 65535
  {
    hide Sum, Updated, Shifted, TtlOf, WithTtl;
    var delta := (TtlOf(h[4], o) - saved) % 65536;
    var g := h[4 := WithTtl(h[4], o, saved)];
    SumReplaced(h, 4, WithTtl(h[4], o, saved));
    SumReplaced(g, 5, Updated(h[5], Shifted(delta, o)));
    UpdatedBy(h[5], Shifted(delta, o));
    TtlStep(h[4], saved, o);
  }

  /** A valid header stays valid exactly when the inner TTL is at least the outer one. The first
      word of a header is not zero, since it holds the version. */
  lemma CopyBackKeepsValid(h: seq<Word16>, saved: nat, o: Order)
    requires |h| >= 10 && saved < 256 && h[0] != 0 && ValidHeader(h)
    ensures ValidHeader(AfterCopyBack(h, saved, o)) <==> TtlOf(h[4], o) >= saved
  {
    var g := AfterCopyBack(h, saved, o);
    OnesSumIsCanon(h);
    OnesSumIsCanon(g);
    MinusZero(Sum(h));
    MinusZero(Sum(g));
    SumAfter(h, saved, o);
    SumAtLeast(g, 0);
    assert g[0] == h[0];
    hide Sum, OnesSum, Canon, AfterCopyBack, TtlOf;
  }
}
