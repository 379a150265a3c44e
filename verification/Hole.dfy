/** `get_hole_eid` of server.c: the prefix that a negative answer is about. The byte pointer into
    the request starts at its first byte whatever the length of the node, and no pointer moves on
    after the first comparison; so the search is right exactly for nodes of length up to 6. A request
    may be of any length; where a cut far behind its end makes the masking loop run past the prefix,
    the model says so and stops. */
module Holes {
  import opened Types
  import opened Bits
  import opened Prefixes
  import opened Shapes
  import opened Theory
  import opened Tries
  import opened Views
  import opened Lookups

  // ---------- what the search compares ----------

  /** How many bytes the pointers have moved on when bit c - 1 is to be compared. */
  function Moves(start: nat, c: nat): nat
    requires start < c
  {
    if c == start + 1 then 0 else (c - 1) / 8 - (start + 1) / 8
  }

  /** Does step c of the search find a difference between the request and a child? */
  ghost predicate Differs(q: seq<Byte>, a: seq<Byte>, start: nat, c: nat)
    requires |q| == |a| == 16 && start < c <= 128
  {
    BitAt(q[Moves(start, c)], (c - 1) % 8) != BitAt(a[start / 8 + Moves(start, c)], (c - 1) % 8)
  }

  /** Which bits of the two addresses step c compares: bit c - 1 of the child, with that bit of the request
      that stands as far from its beginning as the other from the byte where the node ends. Behind a
      node that ends one bit before a byte does, all steps but the first are a byte late. */
  lemma DiffersBits(q: seq<Byte>, a: seq<Byte>, start: nat, c: nat)
    requires |q| == |a| == 16 && start < c <= 128
    ensures start % 8 != 7 || c == start + 1 ==>
      (Differs(q, a, start, c) <==> AddrBit(q, c - 1 - 8 * (start / 8)) != AddrBit(a, c - 1))
    ensures start % 8 == 7 && c > start + 1 ==>
      (Differs(q, a, start, c) <==> AddrBit(q, c - 1 - 8 * ((start + 1) / 8)) != AddrBit(a, c - 9))
  {
    hide BitAt;
    if start % 8 != 7 || c == start + 1 {
      var i := c - 1 - 8 * (start / 8);
      assert i / 8 == Moves(start, c) && i % 8 == (c - 1) % 8 && (c - 1) / 8 == start / 8 + Moves(start, c);
    } else {
      var i := c - 1 - 8 * ((start + 1) / 8);
      assert i / 8 == Moves(start, c) && i % 8 == (c - 1) % 8;
      assert (c - 9) / 8 == start / 8 + Moves(start, c) && (c - 9) % 8 == (c - 1) % 8;
    }
  }

  /** Has the search left a child behind after step c? */
  ghost predicate Left(q: seq<Byte>, a: seq<Byte>, start: nat, c: nat)
    requires |q| == |a| == 16 && c <= 128
  {
    exists i | start < i <= c :: Differs(q, a, start, i)
  }

  ghost predicate LeftAll(q: seq<Byte>, kids: seq<Prefix>, start: nat, c: nat)
    requires |q| == 16 && c <= 128
  {
    forall k | k in kids :: Left(q, k.addr, start, c)
  }

  /** `upbit[c % 8]`: the bit number c - 1 of a byte. */
  function UpBitOf(k: nat): Byte
    requires k < 8
  {
    if k == 0 then 0x01 else if k == 1 then 0x80 else if k == 2 then 0x40 else if k == 3 then 0x20
    else if k == 4 then 0x10 else if k == 5 then 0x08 else if k == 6 then 0x04 else 0x02
  }

  lemma UpBitSame(k: nat)
    requires k < 8
    ensures UpBitOf(k) == UpBit((k + 7) % 8)
  {
  }

  lemma UpBitFits(c: nat, a: Byte, b: Byte)
    requires c > 0
    ensures UpBitOf(c % 8) & (a ^ b) != 0 <==> BitAt(a, (c - 1) % 8) != BitAt(b, (c - 1) % 8)
  {
    hide UpBitOf, UpBit, BitAt;
    UpBitSame(c % 8);
    assert (c % 8 + 7) % 8 == (c - 1) % 8;
    AgreeBit(a, b, (c - 1) % 8);
  }

  lemma MovesOn(start: nat, c: nat)
    requires start < c <= 128
    ensures start / 8 + Moves(start, c) < 16
    ensures Moves(start, c + 1) == Moves(start, c) + if c > start + 1 && c % 8 == 0 then 1 else 0
  {
  }

  ghost function Kids(left: Option<Prefix>, right: Option<Prefix>): seq<Prefix> {
    (if left.Some? then [left.value] else []) + (if right.Some? then [right.value] else [])
  }

  /** One child in one step: still no difference? */
  method Compare(q: seq<Byte>, child: Option<Prefix>, on: bool, res: nat, ptr: nat, ghost start: nat, c: nat)
    returns (still: bool)
    requires |q| == 16 && start < c <= 128 && res == Moves(start, c) && (on ==> ptr == start / 8 + res)
    requires on <==> child.Some? && !Left(q, child.value.addr, start, c - 1)
    ensures still <==> child.Some? && !Left(q, child.value.addr, start, c)
    ensures still ==> on
  {
    hide BitAt, UpBitOf, Moves, Left;
    MovesOn(start, c);
    still := on;
    if child.Some? {
      LeftStep(q, child.value.addr, start, c);
    }
    if on {
      UpBitFits(c, q[res], child.value.addr[ptr]);
      still := UpBitOf(c % 8) & (q[res] ^ child.value.addr[ptr]) == 0;
    }
  }

  lemma LeftKids(q: seq<Byte>, left: Option<Prefix>, right: Option<Prefix>, start: nat, c: nat)
    requires |q| == 16 && c <= 128
    ensures LeftAll(q, Kids(left, right), start, c) <==>
      && (left.Some? ==> Left(q, left.value.addr, start, c))
      && (right.Some? ==> Left(q, right.value.addr, start, c))
  {
    hide Left;
    if left.Some? {
      assert Kids(left, right)[0] == left.value;
    }
    if right.Some? {
      assert Kids(left, right)[|Kids(left, right)| - 1] == right.value;
    }
  }

  /** The comparison loop: the first length at which the request has left all children. */
  method Search(q: seq<Byte>, left: Option<Prefix>, right: Option<Prefix>, start: nat, end: nat) returns (c: nat)
    requires |q| == 16 && start <= end <= 128 && (left.Some? || right.Some?)
    ensures start < c <= end + 1
    ensures c <= end ==> LeftAll(q, Kids(left, right), start, c)
    ensures forall i | start < i < c :: !LeftAll(q, Kids(left, right), start, i)
  {
    hide Moves, Left, LeftAll, Kids;
    var offset := start / 8;
    var res: nat, l: nat, r: nat := 0, offset, offset;
    var onLeft, onRight := left.Some?, right.Some?;
    SearchFirst(q, left, right, start);
    c := start + 1;
    while c <= end
      invariant start < c <= end + 1 && (onLeft || onRight)
      invariant res == Moves(start, c) && (onLeft ==> l == offset + res) && (onRight ==> r == offset + res)
      invariant onLeft <==> left.Some? && !Left(q, left.value.addr, start, c - 1)
      invariant onRight <==> right.Some? && !Left(q, right.value.addr, start, c - 1)
      invariant forall i | start < i < c :: !LeftAll(q, Kids(left, right), start, i)
    {
      onLeft := Compare(q, left, onLeft, res, l, start, c);
      onRight := Compare(q, right, onRight, res, r, start, c);
      LeftKids(q, left, right, start, c);
      if !onLeft && !onRight {
        break;
      }
      MovesOn(start, c);
      if c > start + 1 && c % 8 == 0 {
        res := res + 1;
        if onLeft {
          l := l + 1;
        }
        if onRight {
          r := r + 1;
        }
      }
      c := c + 1;
    }
  }

  lemma SearchFirst(q: seq<Byte>, left: Option<Prefix>, right: Option<Prefix>, start: nat)
    requires |q| == 16 && start <= 128
    ensures Moves(start, start + 1) == 0
    ensures left.Some? ==> !Left(q, left.value.addr, start, start)
    ensures right.Some? ==> !Left(q, right.value.addr, start, start)
  {
  }

  lemma LeftStep(q: seq<Byte>, a: seq<Byte>, start: nat, c: nat)
    requires |q| == |a| == 16 && start < c <= 128
    ensures Left(q, a, start, c) <==> Left(q, a, start, c - 1) || Differs(q, a, start, c)
  {
  }

  /** What comes back: a prefix; nothing; or, if the search ends eight or more bits behind the
      request, a count of bytes to zero that is negative and wraps, so that the loop runs away. */
  datatype Hole = Negative(prefix: Prefix) | Nothing | Runaway(cut: nat)

  /** How far the search goes: to the end of the request or of the longest child. */
  function Reach(end: nat, child: Option<Prefix>): nat {
    if child.Some? && child.value.len > end then child.value.len else end
  }

  /** What `get_hole_eid` answers: the node itself if it has no children, or else the request cut
      where the search has left the children; nothing if it never does. */
  ghost predicate Answers(pf: Prefix, n: Prefix, kids: seq<Prefix>, r: Hole) {
    if kids == [] then r == Negative(n)
    else match r
      case Nothing => forall i | n.len < i <= 128 && InReach(pf, kids, i) :: !LeftAll(pf.addr, kids, n.len, i)
      case Negative(h) =>
        && h.family == pf.family && h.len < pf.len + 8 && BitsOf(h.addr, h.len) == BitsOf(pf.addr, h.len)
        && LeavesAt(pf, n, kids, h.len)
      case Runaway(c) => pf.len + 8 <= c && LeavesAt(pf, n, kids, c)
  }

  ghost predicate InReach(pf: Prefix, kids: seq<Prefix>, i: nat) {
    i <= pf.len || exists k :: k in kids && i <= k.len
  }

  /** c is the first length at which the search has left all children. */
  ghost predicate LeavesAt(pf: Prefix, n: Prefix, kids: seq<Prefix>, c: nat) {
    && n.len < c <= 128 && InReach(pf, kids, c) && LeftAll(pf.addr, kids, n.len, c)
    && forall i | n.len < i < c :: !LeftAll(pf.addr, kids, n.len, i)
  }

  /** A node with children has one answer: the first length, up to the end of the request or of the longest
      child, at which the search has left all children; nothing if there is none. */
  lemma AnswerIs(pf: Prefix, n: Prefix, kids: seq<Prefix>, r: Hole)
    requires kids != [] && Answers(pf, n, kids, r)
    ensures r == Nothing <==> forall c | n.len < c <= 128 && LeftAll(pf.addr, kids, n.len, c) ::
      c > pf.len && forall k | k in kids :: c > k.len
    ensures r.Negative? ==> FirstLeft(pf, n, kids, r.prefix.len) && r.prefix.len < pf.len + 8
    ensures r.Runaway? ==> FirstLeft(pf, n, kids, r.cut) && r.cut >= pf.len + 8
  {
    hide LeftAll;
  }

  ghost predicate FirstLeft(pf: Prefix, n: Prefix, kids: seq<Prefix>, c: nat) {
    && n.len < c <= 128 && (c <= pf.len || exists k :: k in kids && c <= k.len)
    && LeftAll(pf.addr, kids, n.len, c) && forall i | n.len < i < c :: !LeftAll(pf.addr, kids, n.len, i)
  }

  /** The octet behind the address is written to exactly by a cut of the whole address, and by a cut
      of an IPv6 address at a byte. */
  predicate Spills(pf: Prefix, c: nat) {
    c == 128 || (pf.len == 128 && c % 8 == 0)
  }

  lemma ReachIs(pf: Prefix, left: Option<Prefix>, right: Option<Prefix>)
    ensures var end := Reach(Reach(pf.len, left), right);
      && pf.len <= end <= 128
      && forall i: nat :: InReach(pf, Kids(left, right), i) <==> i <= end
  {
    var kids := Kids(left, right);
    assert left.Some? ==> left.value in kids;
    assert right.Some? ==> right.value in kids;
  }

  /** `get_hole_eid`, for a node that covers the request, as a match does. `behind` is the octet
      behind the address of the prefix written. */
  method GetHole(pf: Prefix, nega: Node, behind: Byte) returns (r: Hole, behind': Byte)
    requires nega.p.len <= pf.len && forall k | k in KidsOf(nega) :: k.family == pf.family
    ensures Answers(pf, nega.p, KidsOf(nega), r)
    ensures behind' == if KidsOf(nega) != [] && r.Negative? && Spills(pf, r.prefix.len) then 0 else behind
    ensures r.Negative? && KidsOf(nega) != [] && pf.len % 8 == 0 ==>
      forall i | r.prefix.len <= i < pf.len :: !AddrBit(r.prefix.addr, i)
  {
    hide BitsOf, Moves, Left, LeftAll, InReach, Reach, KidsOf, AddrBit;
    KidsAre(nega);
    behind' := behind;
    var left := if nega.links.left == null then None else Some(nega.links.left.p);
    var right := if nega.links.right == null then None else Some(nega.links.right.p);
    KidsAsOptions(nega, left, right);
    if left == None && right == None {
      return Negative(nega.p), behind;
    }
    var end := Reach(Reach(pf.len, left), right);
    ReachIs(pf, left, right);
    var c := Search(pf.addr, left, right, nega.p.len, end);
    if c > end {
      r := Nothing;
    } else if c >= pf.len + 8 {
      r := Runaway(c);
    } else {
      CutFits(pf, KidsOf(nega), c);
      var addr;
      addr, behind' := Cut(pf, behind, c);
      r := Negative(Prefix(pf.family, c, addr));
    }
  }

  lemma KidsAsOptions(n: Node, left: Option<Prefix>, right: Option<Prefix>)
    requires left == if n.links.left == null then None else Some(n.links.left.p)
    requires right == if n.links.right == null then None else Some(n.links.right.p)
    ensures KidsOf(n) == Kids(left, right) && (KidsOf(n) == [] <==> left == None && right == None)
  {
  }

  lemma CutFits(pf: Prefix, kids: seq<Prefix>, c: nat)
    requires InReach(pf, kids, c) && forall k | k in kids :: k.family == pf.family
    ensures c <= MaxLen(pf.family)
  {
  }

  ghost function KidsOf(n: Node): seq<Prefix>
    reads n`links
  {
    Kids(if n.links.left == null then None else Some(n.links.left.p),
         if n.links.right == null then None else Some(n.links.right.p))
  }

  /** The address of the request masked at length c, byte by byte, with the octet behind it. */
  method Cut(pf: Prefix, behind: Byte, c: nat) returns (addr: seq<Byte>, behind': Byte)
    requires 0 < c <= MaxLen(pf.family) && c < pf.len + 8
    ensures |addr| == 16 && BitsOf(addr, c) == BitsOf(pf.addr, c)
    ensures behind' == if Spills(pf, c) then 0 else behind
    ensures pf.len % 8 == 0 ==> forall i | c <= i < pf.len :: !AddrBit(addr, i)
  {
    hide BitsOf, MaskBit, AddrBit, Spills, Rest, Masked;
    RestBytes(pf.len, c);
    var buf := MaskTail(pf.addr + [behind], c / 8, MaskBit(c % 8), Rest(pf.len, c));
    CutTail(pf, behind, buf, c);
    addr, behind' := buf[..16], buf[16];
  }

  /** How many octets behind the cut one are zeroed. */
  function Rest(len: nat, c: nat): nat {
    if c <= len then (len - c) / 8 else 0
  }

  /** The masked buffer is an address and the octet behind it. */
  lemma TailAt(pf: Prefix, behind: Byte, buf: seq<Byte>, ptr: nat, mask: Byte, offset: nat, j: nat)
    requires |buf| == 17 && j <= 16 && Masked(pf.addr + [behind], buf, ptr, mask, offset)
    ensures buf[j] == MaskedOctet((pf.addr + [behind])[j], j, ptr, mask, offset)
  {
  }

  lemma Parts<T>(buf: seq<T>, addr: seq<T>, behind: T, j: nat)
    requires |buf| == 17 && |addr| == 16 && j <= 16
    ensures j < 16 ==> buf[..16][j] == buf[j] && (addr + [behind])[j] == addr[j]
    ensures (addr + [behind])[16] == behind
  {
  }

  lemma CutTail(pf: Prefix, behind: Byte, buf: seq<Byte>, c: nat)
    requires 0 < c <= MaxLen(pf.family) && c < pf.len + 8 && |buf| == 17
    requires Masked(pf.addr + [behind], buf, c / 8, MaskBit(c % 8), Rest(pf.len, c))
    ensures BitsOf(buf[..16], c) == BitsOf(pf.addr, c)
    ensures buf[16] == if Spills(pf, c) then 0 else behind
    ensures pf.len % 8 == 0 ==> forall i | c <= i < pf.len :: !AddrBit(buf[..16], i)
  {
    hide BitsOf, MaskBit, AddrBit, Spills, Rest, Masked;
    forall j | 0 <= j < 16 ensures buf[..16][j]
      == MaskedOctet(pf.addr[j], j, c / 8, MaskBit(c % 8), Rest(pf.len, c)) {
      TailAt(pf, behind, buf, c / 8, MaskBit(c % 8), Rest(pf.len, c), j);
      Parts(buf, pf.addr, behind, j);
    }
    CutBits(pf, buf[..16], c);
    TailAt(pf, behind, buf, c / 8, MaskBit(c % 8), Rest(pf.len, c), 16);
    Parts(buf, pf.addr, behind, 16);
    Behind(pf, behind, buf[16], c);
  }

  lemma Behind(pf: Prefix, behind: Byte, behind': Byte, c: nat)
    requires 0 < c <= MaxLen(pf.family) && c < pf.len + 8
    requires behind' == MaskedOctet(behind, 16, c / 8, MaskBit(c % 8), Rest(pf.len, c))
    ensures behind' == if Spills(pf, c) then 0 else behind
  {
    if c == 128 {
      assert behind & 0 == 0;
    }
  }

  /** The octet at `ptr` is masked, and `offset` octets behind it are zeroed. */
  function MaskedOctet(x: Byte, j: nat, ptr: nat, mask: Byte, offset: nat): Byte {
    if j == ptr then x & mask else if ptr < j <= ptr + offset then 0 else x
  }

  ghost predicate Masked(a: seq<Byte>, b: seq<Byte>, ptr: nat, mask: Byte, offset: nat) {
    |a| == |b| && forall j | 0 <= j < |a| :: b[j] == MaskedOctet(a[j], j, ptr, mask, offset)
  }

  method MaskTail(a: seq<Byte>, ptr: nat, mask: Byte, offset: nat) returns (addr: seq<Byte>)
    requires ptr + offset < |a|
    ensures |addr| == |a| && Masked(a, addr, ptr, mask, offset)
  {
    hide MaskedOctet;
    var octet := a[ptr] & mask;
    addr := a[ptr := octet];
    var next := ptr;
    if offset != 0 {
      next := next + 1;
    }
    addr := Zeroed(addr, next, offset);
    forall j | 0 <= j < |a| ensures addr[j] == MaskedOctet(a[j], j, ptr, mask, offset) {
      OctetIs(a[j], j, ptr, mask, offset, octet);
    }
  }

  lemma OctetIs(x: Byte, j: nat, ptr: nat, mask: Byte, offset: nat, octet: Byte)
    requires j == ptr ==> octet == x & mask
    ensures MaskedOctet(x, j, ptr, mask, offset)
      == if j == ptr then octet else if ptr < j <= ptr + offset then 0 else x
  {
  }

  lemma RestBytes(len: nat, c: nat)
    requires len <= 128 && 0 < c <= 128 && c < len + 8
    ensures c / 8 + Rest(len, c) <= 16
    ensures len % 8 == 0 && c < len ==> c / 8 + Rest(len, c) >= len / 8 - 1
  {
  }

  lemma CutBits(pf: Prefix, a: seq<Byte>, c: nat)
    requires |a| == 16 && 0 < c <= 128 && c < pf.len + 8
    requires forall j | 0 <= j < 16 :: a[j] == MaskedOctet(pf.addr[j], j, c / 8, MaskBit(c % 8), Rest(pf.len, c))
    ensures BitsOf(a, c) == BitsOf(pf.addr, c)
    ensures pf.len % 8 == 0 ==> forall i | c <= i < pf.len :: !AddrBit(a, i)
  {
    hide BitsOf, MaskBit, BitAt, AddrBit, Rest;
    RestBytes(pf.len, c);
    if c == 128 {
      assert a == pf.addr;
    } else {
      var size := if pf.len % 8 == 0 && c < pf.len then pf.len / 8 else c / 8 + 1;
      var q := Prefix(IPv6, c, pf.addr);
      MaskedKey(q, a, size);
      assert KeyOf(q) == BitsOf(pf.addr, c);
    }
  }

  /** The trailing loop of `get_hole_eid`. */
  method Zeroed(addr: seq<Byte>, from: nat, count: nat) returns (r: seq<Byte>)
    requires from + count <= |addr|
    ensures |r| == |addr|
    ensures forall i | 0 <= i < |addr| :: r[i] == if from <= i < from + count then 0 else addr[i]
  {
    r := addr;
    var ptr, offset := from, count;
    while offset > 0
      invariant 0 <= offset <= count && ptr == from + count - offset && |r| == |addr|
      invariant forall i | 0 <= i < |addr| :: r[i] == if from <= i < ptr then 0 else addr[i]
    {
      r := r[ptr := 0];
      ptr := ptr + 1;
      offset := offset - 1;
    }
  }

  lemma {:induction false} BitsOfTake(a: seq<Byte>, n: nat, m: nat)
    requires m <= n <= 8 * |a|
    ensures BitsOf(a, n)[..m] == BitsOf(a, m)
  {
    if m < n {
      BitsOfTake(a, n - 1, m);
    }
  }

  // ---------- when the answer is right ----------

  /** h holds the request q, lies inside n, overlaps none of the prefixes, and is the shortest
      such prefix. */
  ghost predicate RightHole(q: Key, n: Key, kids: seq<Prefix>, h: Key) {
    && n <= h <= q
    && (forall k | k in kids :: !Overlap(h, KeyOf(k)))
    && (forall i | |n| <= i < |h| :: Clashes(h[..i], kids))
  }

  ghost predicate Clashes(g: Key, kids: seq<Prefix>) {
    exists k | k in kids :: Overlap(g, KeyOf(k))
  }

  /** A request that n covers and none of the children of n does: n is its longest match. */
  ghost predicate Missed(pf: Prefix, n: Prefix, kids: seq<Prefix>) {
    && KeyOf(n) <= KeyOf(pf)
    && forall k | k in kids :: k.family == pf.family && KeyOf(n) < KeyOf(k) && !(KeyOf(k) <= KeyOf(pf))
  }

  /** No child lies below the request. This is always so for the request of a whole address. */
  ghost predicate NoneBelow(pf: Prefix, kids: seq<Prefix>) {
    forall k | k in kids :: !(KeyOf(pf) < KeyOf(k))
  }

  lemma AddressHasNoneBelow(pf: Prefix, kids: seq<Prefix>)
    requires pf.len == MaxLen(pf.family) && forall k | k in kids :: k.family == pf.family
    ensures NoneBelow(pf, kids)
  {
    forall k | k in kids ensures !(KeyOf(pf) < KeyOf(k)) {
      assert |KeyOf(k)| <= |KeyOf(pf)|;
    }
  }

  lemma StepIsBit(q: seq<Byte>, a: seq<Byte>, start: nat, c: nat)
    requires |q| == |a| == 16 && start <= 6 && start < c <= 128
    ensures Differs(q, a, start, c) <==> AddrBit(q, c - 1) != AddrBit(a, c - 1)
  {
    hide BitAt;
    assert Moves(start, c) == (c - 1) / 8;
  }

  /** For short nodes the search leaves a child exactly where the cut request leaves it. */
  lemma LeftIsApart(pf: Prefix, n: Prefix, k: Prefix, c: nat)
    requires n.len <= 6 && n.len < c <= pf.len && Missed(pf, n, [k])
    ensures Left(pf.addr, k.addr, n.len, c) <==> !Overlap(KeyOf(pf)[..c], KeyOf(k))
  {
    hide BitsOf, Moves, Differs, AddrBit;
    assert k in [k];
    var q, b := KeyOf(pf), KeyOf(k);
    var m := |Lcp(b, q)|;
    forall i | n.len < i <= pf.len
      ensures Differs(pf.addr, k.addr, n.len, i) <==> AddrBit(pf.addr, i - 1) != AddrBit(k.addr, i - 1)
      ensures q[i - 1] == AddrBit(pf.addr, i - 1)
      ensures i <= k.len ==> b[i - 1] == AddrBit(k.addr, i - 1)
    {
      StepIsBit(pf.addr, k.addr, n.len, i);
      BitsOfAt(pf.addr, pf.len, i - 1);
      if i <= k.len {
        BitsOfAt(k.addr, k.len, i - 1);
      }
    }
    assert m < k.len && b[..m] == q[..m];
    assert n.len <= m by {
      LcpGreatest(KeyOf(n), b, q);
    }
    if c <= m {
      assert q[..c] <= b;
      forall i | n.len < i <= c ensures !Differs(pf.addr, k.addr, n.len, i) {
        assert b[i - 1] == b[..m][i - 1] == q[..m][i - 1] == q[i - 1];
      }
    } else {
      assert m < pf.len && b[m] != q[m];
      assert Differs(pf.addr, k.addr, n.len, m + 1);
    }
  }

  lemma LeftAllIsApart(pf: Prefix, n: Prefix, kids: seq<Prefix>, c: nat)
    requires n.len <= 6 && n.len < c <= pf.len && Missed(pf, n, kids)
    ensures LeftAll(pf.addr, kids, n.len, c) <==> !Clashes(KeyOf(pf)[..c], kids)
  {
    hide KeyOf, Left;
    forall k | k in kids ensures Left(pf.addr, k.addr, n.len, c) <==> !Overlap(KeyOf(pf)[..c], KeyOf(k)) {
      LeftIsApart(pf, n, k, c);
    }
  }

  /** With no child below the request, the search of a short node ends within the request. */
  lemma EndsWithin(pf: Prefix, n: Prefix, kids: seq<Prefix>, r: Hole)
    requires Missed(pf, n, kids) && Answers(pf, n, kids, r) && kids != [] && n.len <= 6 && NoneBelow(pf, kids)
    ensures r.Negative? && r.prefix.len <= pf.len && KeyOf(r.prefix) == KeyOf(pf)[..r.prefix.len]
    ensures n.len < pf.len
  {
    hide Left, LeftAll, BitsOf;
    assert KeyOf(n) != KeyOf(pf) by {
      assert kids[0] in kids;
    }
    var q := KeyOf(pf);
    assert q[..pf.len] == q && !Clashes(q, kids);
    LeftAllIsApart(pf, n, kids, pf.len);
    if r.Negative? {
      BitsOfTake(pf.addr, pf.len, r.prefix.len);
    }
  }

  /** The answer is right exactly if no child lies below the request: for every request at a node
      without children, and at a node of length at most 6. */
  lemma HoleRight(pf: Prefix, n: Prefix, kids: seq<Prefix>, r: Hole)
    requires Missed(pf, n, kids) && Answers(pf, n, kids, r) && (kids == [] || n.len <= 6)
    ensures r.Negative? && RightHole(KeyOf(pf), KeyOf(n), kids, KeyOf(r.prefix)) <==> NoneBelow(pf, kids)
  {
    hide KeyOf, LeftAll;
    if kids != [] && NoneBelow(pf, kids) {
      EndsWithin(pf, n, kids, r);
      var q, h := KeyOf(pf), KeyOf(r.prefix);
      LeftAllIsApart(pf, n, kids, |h|);
      forall i | n.len <= i < |h| ensures Clashes(h[..i], kids) {
        assert h[..i] == q[..i];
        if i == n.len {
          assert q[..i] == KeyOf(n) && Overlap(q[..i], KeyOf(kids[0]));
        } else {
          LeftAllIsApart(pf, n, kids, i);
        }
      }
    }
  }

  /** An address with one bit set, and a prefix of zeros. */
  function OneBit(b: nat): (a: seq<Byte>)
    requires b < 128
    ensures |a| == 16
  {
    seq(16, i => if i == b / 8 then UpBit(b % 8) else 0)
  }

  function Zeros(f: Family, len: nat): (p: Prefix)
    requires len <= MaxLen(f)
    ensures p.len == len && p.family == f
  {
    Prefix(f, len, seq(16, _ => 0))
  }

  /** The request of the address whose only set bit is b. */
  function Request(f: Family, b: nat): (p: Prefix)
    requires b < MaxLen(f)
    ensures p.len == MaxLen(f) && p.family == f && p.addr == OneBit(b)
  {
    Prefix(f, MaxLen(f), OneBit(b))
  }

  lemma OneBitAt(b: nat, i: nat)
    requires b < 128 && i < 128
    ensures AddrBit(OneBit(b), i) <==> i == b
  {
    assert UpBit(b % 8) & UpBit(i % 8) != 0 <==> b % 8 == i % 8;
    assert i / 8 == b / 8 && i % 8 == b % 8 ==> i == b;
    assert 0 as Byte & UpBit(i % 8) == 0;
  }

  lemma ZerosAt(f: Family, len: nat, i: nat)
    requires len <= MaxLen(f) && i < 128
    ensures !AddrBit(Zeros(f, len).addr, i) && (i < len ==> !KeyOf(Zeros(f, len))[i])
  {
    assert 0 as Byte & UpBit(i % 8) == 0;
    if i < len {
      BitsOfAt(Zeros(f, len).addr, len, i);
    }
  }

  lemma RequestAt(f: Family, b: nat, i: nat)
    requires b < MaxLen(f) && i < MaxLen(f)
    ensures KeyOf(Request(f, b))[i] <==> i == b
  {
    OneBitAt(b, i);
    BitsOfAt(OneBit(b), MaxLen(f), i);
  }

  /** The request whose only set bit is b, a node of b or fewer zeros, a child of more. */
  lemma ZeroTrie(f: Family, b: nat, start: nat)
    requires start <= b < MaxLen(f)
    ensures Missed(Request(f, b), Zeros(f, start), [Zeros(f, b + 1)])
    ensures forall i | 0 <= i < MaxLen(f) :: KeyOf(Request(f, b))[i] <==> i == b
  {
    hide KeyOf, Request, Zeros, AddrBit, MaxLen;
    var q, n, k := Request(f, b), Zeros(f, start), Zeros(f, b + 1);
    forall i | 0 <= i < MaxLen(f) ensures KeyOf(q)[i] <==> i == b {
      RequestAt(f, b, i);
    }
    forall i | 0 <= i < b + 1 ensures (i < start ==> !KeyOf(n)[i]) && !KeyOf(k)[i] {
      ZeroNode(f, start, i);
      ZeroNode(f, b + 1, i);
    }
    assert KeyOf(q)[b] && !KeyOf(k)[b];
  }

  lemma ZeroNode(f: Family, len: nat, i: nat)
    requires len <= MaxLen(f) && i < MaxLen(f)
    ensures i < len ==> !KeyOf(Zeros(f, len))[i]
  {
    ZerosAt(f, len, i);
  }

  /** From length 7 on the search reads the request too far to the left. */
  lemma ReadsTooEarly(f: Family, start: nat, b: nat, c: nat)
    requires 7 <= start < MaxLen(f) && b == FailingBit(start) && start < c <= b + 1
    ensures b < MaxLen(f) && !Differs(OneBit(b), Zeros(f, b + 1).addr, start, c)
  {
    hide BitAt, UpBit;
    var i := 8 * Moves(start, c) + (c - 1) % 8;
    var j := 8 * (start / 8 + Moves(start, c)) + (c - 1) % 8;
    assert i / 8 == Moves(start, c) && i % 8 == (c - 1) % 8 && i < b;
    assert j / 8 == start / 8 + Moves(start, c) && j % 8 == (c - 1) % 8;
    OneBitAt(b, i);
    ZerosAt(f, b + 1, j);
  }

  function FailingBit(start: nat): nat {
    if start == 7 then 8 else start
  }

  /** For every longer node there is the request of an address, and a child, for which the answer is
      not right. */
  lemma HoleWrong(f: Family, start: nat, r: Hole)
    requires 7 <= start < MaxLen(f)
    requires Answers(Request(f, FailingBit(start)), Zeros(f, start), [Zeros(f, FailingBit(start) + 1)], r)
    ensures !(r.Negative? && RightHole(KeyOf(Request(f, FailingBit(start))), KeyOf(Zeros(f, start)),
                                       [Zeros(f, FailingBit(start) + 1)], KeyOf(r.prefix)))
  {
    hide KeyOf, OneBit, Zeros, Differs, RightHole, BitsOf, InReach;
    var b := FailingBit(start);
    var k := Zeros(f, b + 1);
    assert k in [k];
    if r.Negative? && r.prefix.len == b + 1 {
      forall c | start < c <= b + 1 ensures !Differs(OneBit(b), k.addr, start, c) {
        ReadsTooEarly(f, start, b, c);
      }
      assert false;
    } else if r.Negative? && RightHole(KeyOf(Request(f, b)), KeyOf(Zeros(f, start)), [k], KeyOf(r.prefix)) {
      RightLength(f, b, start, KeyOf(r.prefix));
    }
  }

  lemma ZeroOverlap(f: Family, b: nat, start: nat, i: nat)
    requires start <= b < MaxLen(f) && i <= MaxLen(f)
    ensures Overlap(KeyOf(Request(f, b))[..i], KeyOf(Zeros(f, b + 1))) <==> i <= b
  {
    hide KeyOf, OneBit, Zeros, Request;
    ZeroTrie(f, b, start);
    var q, k := KeyOf(Request(f, b)), KeyOf(Zeros(f, b + 1));
    forall j | 0 <= j <= b ensures !k[j] {
      ZeroNode(f, b + 1, j);
    }
    if i > b {
      assert q[..i][b] != k[b];
    }
  }

  /** The right answer ends just after the set bit. */
  lemma RightLength(f: Family, b: nat, start: nat, h: Key)
    requires start <= b < MaxLen(f)
    requires RightHole(KeyOf(Request(f, b)), KeyOf(Zeros(f, start)), [Zeros(f, b + 1)], h)
    ensures |h| == b + 1
  {
    hide KeyOf, Request, Zeros, Overlap;
    var q, k := KeyOf(Request(f, b)), Zeros(f, b + 1);
    assert k in [k];
    assert h == q[..|h|];
    ZeroOverlap(f, b, start, |h|);
    if |h| > start {
      var i := |h| - 1;
      assert h[..i] == q[..i];
      ZeroOverlap(f, b, start, i);
    }
  }

  /** Over every request of the family and every node of a length, with children that do not lie
      below the request, is every answer right? */
  ghost predicate AlwaysRight(f: Family, start: nat) {
    forall pf: Prefix, n: Prefix, kids: seq<Prefix>, r: Hole
      | pf.family == f && n.len == start && kids != [] && Missed(pf, n, kids) && NoneBelow(pf, kids)
        && Answers(pf, n, kids, r) ::
      r.Negative? && RightHole(KeyOf(pf), KeyOf(n), kids, KeyOf(r.prefix))
  }

  /** Of the lengths a node with children can have, exactly those up to 6 are always right. */
  lemma RightExactlyUpTo6(f: Family, start: nat)
    requires start < MaxLen(f)
    ensures AlwaysRight(f, start) <==> start <= 6
  {
    if start <= 6 {
      forall pf: Prefix, n: Prefix, kids: seq<Prefix>, r: Hole
        | pf.family == f && n.len == start && kids != [] && Missed(pf, n, kids) && NoneBelow(pf, kids)
          && Answers(pf, n, kids, r)
        ensures r.Negative? && RightHole(KeyOf(pf), KeyOf(n), kids, KeyOf(r.prefix))
      {
        HoleRight(pf, n, kids, r);
      }
    } else {
      WrongSomewhere(f, start);
    }
  }

  lemma WrongSomewhere(f: Family, start: nat)
    requires 7 <= start < MaxLen(f)
    ensures !AlwaysRight(f, start)
  {
    hide Answers, RightHole, KeyOf, Request, Zeros, Missed, NoneBelow;
    var b := FailingBit(start);
    var pf, n, kids := Request(f, b), Zeros(f, start), [Zeros(f, b + 1)];
    ZeroTrie(f, b, start);
    AddressHasNoneBelow(pf, kids);
    var r := SomeAnswer(pf, n, kids);
    HoleWrong(f, start, r);
  }

  lemma SomeAnswer(pf: Prefix, n: Prefix, kids: seq<Prefix>) returns (r: Hole)
    requires pf.len == MaxLen(pf.family) && kids != [] && forall k | k in kids :: k.family == pf.family
    ensures Answers(pf, n, kids, r)
  {
    hide LeftAll, BitsOf;
    r := Nothing;
    var i := n.len + 1;
    while i <= pf.len
      invariant n.len < i && r == Nothing
      invariant forall j | n.len < j < i && j <= pf.len :: !LeftAll(pf.addr, kids, n.len, j)
    {
      if LeftAll(pf.addr, kids, n.len, i) {
        r := Negative(pf.(len := i));
        break;
      }
      i := i + 1;
    }
  }

  // ---------- the negative answer of a table ----------

  lemma TopMatches(top: Node, s: Links, family: Family, v: View, q: Key, r: Option<Key>)
    requires Trie(top, s, family) && Consistent(s, v) && top.key == [] && IsLongest(v.Keys, q, r)
    ensures r.Some?
  {
    hide Linked, Routed, UniqueKeys;
    assert top in s && top.key in v.Keys && top.key <= q;
  }

  lemma KidsLinked(top: Node?, s: Links, family: Family, n: Node, bit: bool)
    requires Trie(top, s, family) && n in s && s[n].Link(bit) != null
    ensures var k := s[n].Link(bit);
      && k in s && Labelled(k, family) && Labelled(n, family) && n.key < k.key && k.key[|n.key|] == bit
  {
    assert ChildLinked(s, n, bit);
  }

  lemma KidsAre(n: Node)
    ensures KidsOf(n) != [] <==> n.links.left != null || n.links.right != null
    ensures forall k | k in KidsOf(n) ::
      (n.links.left != null && k == n.links.left.p) || (n.links.right != null && k == n.links.right.p)
    ensures n.links.left != null ==> n.links.left.p in KidsOf(n)
    ensures n.links.right != null ==> n.links.right.p in KidsOf(n)
  {
    if n.links.left != null {
      assert KidsOf(n)[0] == n.links.left.p;
    }
    if n.links.right != null {
      assert KidsOf(n)[|KidsOf(n)| - 1] == n.links.right.p;
    }
  }

  /** The children of the longest match do not cover the request. */
  lemma MatchMissed(top: Node?, s: Links, family: Family, v: View, pf: Prefix, n: Node)
    requires Stored(s) && Trie(top, s, family) && Consistent(s, v) && n in s
    requires pf.family == family && IsLongest(v.Keys, KeyOf(pf), Some(n.key))
    ensures Missed(pf, n.p, KidsOf(n)) && n.key == KeyOf(n.p)
  {
    hide Trie, Size, KeyOf, KidsOf, Branches;
    KidsAre(n);
    TrieParts(top, s, family);
    if n.links.left != null {
      KidsLinked(top, s, family, n, false);
    }
    if n.links.right != null {
      KidsLinked(top, s, family, n, true);
    }
    hide Linked, Routed, UniqueKeys, Rooted;
  }

  /** Everything below a node lies at or below one of its children. */
  lemma ThroughChild(top: Node?, s: Links, family: Family, n: Node, x: Node) returns (c: Prefix)
    requires Stored(s) && Trie(top, s, family) && n in s && x in s && n.key < x.key
    ensures c in KidsOf(n) && KeyOf(c) <= x.key
  {
    hide Trie, Size, KeyOf, KidsOf, Linked, UniqueKeys, Rooted;
    KidsAre(n);
    TrieParts(top, s, family);
    assert RoutedPair(s, n, x);
    KidsLinked(top, s, family, n, x.key[|n.key|]);
    c := s[n].Link(x.key[|n.key|]).p;
  }

  /** The children are stored. */
  lemma KidsStored(top: Node?, s: Links, family: Family, v: View, n: Node)
    requires Stored(s) && Trie(top, s, family) && Consistent(s, v) && n in s
    ensures forall k | k in KidsOf(n) :: KeyOf(k) in v
  {
    hide Trie, Size, KeyOf, KidsOf, Branches;
    KidsAre(n);
    TrieParts(top, s, family);
    if n.links.left != null {
      KidsLinked(top, s, family, n, false);
    }
    if n.links.right != null {
      KidsLinked(top, s, family, n, true);
    }
    hide Linked, Routed, UniqueKeys, Rooted;
  }

  /** What overlaps no child overlaps nothing below the node. */
  lemma BelowApart(top: Node?, s: Links, family: Family, v: View, pf: Prefix, n: Node, h: Key)
    requires Stored(s) && Trie(top, s, family) && Consistent(s, v) && n in s
    requires RightHole(KeyOf(pf), n.key, KidsOf(n), h)
    ensures forall k | k in v && n.key < k :: !Overlap(h, k)
  {
    hide Trie, Size, KeyOf, KidsOf, Branches, Clashes, Stored;
    forall k | k in v && n.key < k ensures !Overlap(h, k) {
      var x :| x in s && x.key == k;
      var c := ThroughChild(top, s, family, n, x);
      assert !Overlap(h, KeyOf(c));
    }
  }

  /** Nothing stored lies below a request. */
  ghost predicate Unrefined(v: View, q: Key) {
    forall k | k in v :: !(q < k)
  }

  /** A stored prefix below the request shows in the children of the longest match. */
  lemma UnrefinedIsNoneBelow(top: Node?, s: Links, family: Family, v: View, pf: Prefix, n: Node)
    requires Stored(s) && Trie(top, s, family) && Consistent(s, v) && n in s && Missed(pf, n.p, KidsOf(n))
    requires n.key == KeyOf(n.p)
    ensures Unrefined(v, KeyOf(pf)) <==> NoneBelow(pf, KidsOf(n))
  {
    hide Trie, Size, KeyOf, KidsOf, Branches, Stored;
    KidsStored(top, s, family, v, n);
    forall k | k in v && KeyOf(pf) < k ensures !NoneBelow(pf, KidsOf(n)) {
      var x :| x in s && x.key == k;
      var c := ThroughChild(top, s, family, n, x);
      assert KeyOf(pf) < KeyOf(c);
    }
  }

  /** The answer of a table to any request that stops at a leaf, or at a node of length at most 6:
      `db_node_match_prefix`, then `get_hole_eid`. It holds the request, lies inside the match, is as
      short as can be and overlaps no stored prefix below the match, exactly when nothing stored lies
      below the request. */
  method NegativePrefix(t: Table, pf: Prefix, behind: Byte) returns (rn: Node, r: Hole, behind': Byte)
    requires t.Valid() && t.top != null && t.top.key == [] && pf.family == t.family
    modifies t`view, t.shape.Keys`entry
    ensures t.Valid() && rn in t.shape && IsLongest(old(t.view).Keys, KeyOf(pf), Some(rn.key))
    ensures |rn.key| <= 6 || KidsOf(rn) == [] ==>
      (r.Negative? && RightHole(KeyOf(pf), rn.key, KidsOf(rn), KeyOf(r.prefix)) <==> Unrefined(t.view, KeyOf(pf)))
    ensures r.Negative? && RightHole(KeyOf(pf), rn.key, KidsOf(rn), KeyOf(r.prefix)) ==>
      forall k | k in t.view && rn.key < k :: !Overlap(KeyOf(r.prefix), k)
    ensures KidsOf(rn) == [] || pf.len == MaxLen(pf.family) ==> Unrefined(t.view, KeyOf(pf))
  {
    hide Trie, Size, ConsistentBut, Holds, Answers, RightHole, Missed, IsLongest, KeyOf, KidsOf, Unrefined, NoneBelow,
      MaxLen;
    var matched := MatchPrefix(t, pf);
    StoredKeys(t.shape, t.view);
    SameKeys(old(t.view), t.view, matched);
    TopMatches(t.top, t.shape, t.family, t.view, KeyOf(pf), KeyOrNone(matched));
    rn := matched;
    MatchMissed(t.top, t.shape, t.family, t.view, pf, rn);
    UnrefinedIsNoneBelow(t.top, t.shape, t.family, t.view, pf, rn);
    SameFamily(pf, rn.p, KidsOf(rn));
    r, behind' := GetHole(pf, rn, behind);
    if |rn.key| <= 6 || KidsOf(rn) == [] {
      HoleRight(pf, rn.p, KidsOf(rn), r);
    }
    if r.Negative? && RightHole(KeyOf(pf), rn.key, KidsOf(rn), KeyOf(r.prefix)) {
      BelowApart(t.top, t.shape, t.family, t.view, pf, rn, KeyOf(r.prefix));
    }
  }

  lemma SameFamily(pf: Prefix, n: Prefix, kids: seq<Prefix>)
    requires Missed(pf, n, kids)
    ensures n.len <= pf.len && forall k | k in kids :: k.family == pf.family
    ensures kids == [] || pf.len == MaxLen(pf.family) ==> NoneBelow(pf, kids)
  {
    if pf.len == MaxLen(pf.family) {
      AddressHasNoneBelow(pf, kids);
    }
  }

  lemma SameKeys(v: View, w: View, n: Node?)
    requires if n == null then w == v else n.key in v && w == v[n.key := Bumped(v, n.key)]
    ensures w.Keys == v.Keys
  {
  }
}
