/** The hypervisor's choice of a control plane (sorting.c): a linear scan for the longest prefix. */
module Sorting {
  import opened Types
  import opened Bits
  import opened Prefixes
  import Lookups

  /** An assignment: an EID prefix of an IPv6 length, and the control plane it belongs to. */
  datatype AssignmentRecord = Assignment(addr: seq<Byte>, len: nat, assignee: int)

  type Assignment = a: AssignmentRecord | |a.addr| == 16 && a.len <= 128
    witness Assignment([0, 0, 0, 0, 0, 0, 0, 0, 0, 0, 0, 0, 0, 0, 0, 0], 0, 0)

  /** SORTING_ERR, SORTING_ONE, SORTING_ALL, SORTING_NON. */
  datatype Choice = Error | One(index: int) | All | Default(index: int)

  /** The bits asked for: a length beyond 128 counts as 128. */
  ghost function Asked(addr: seq<Byte>, len: nat): Key
    requires |addr| == 16
  {
    BitsOf(addr, if len > 128 then 128 else len)
  }

  ghost function KeyIn(a: Assignment): (k: Key)
    ensures |k| == a.len
  {
    BitsOf(a.addr, a.len)
  }

  /** Does an assignment match? */
  ghost predicate Matches(a: Assignment, addr: seq<Byte>, len: nat, exact: bool)
    requires |addr| == 16
  {
    KeyIn(a) <= Asked(addr, len) && (exact ==> a.len == len)
  }

  /** The longest match so far, the last one of its length. */
  ghost predicate Best(s: seq<Assignment>, n: nat, addr: seq<Byte>, len: nat, exact: bool, i: nat)
    requires |addr| == 16 && n <= |s|
  {
    && i < n && Matches(s[i], addr, len, exact)
    && forall j | 0 <= j < n && Matches(s[j], addr, len, exact) ::
         s[j].len < s[i].len || (s[j].len == s[i].len && j <= i)
  }

  /** Two octets agree under a mask. */
  predicate SameUnder(x: Byte, y: Byte, m: Byte) {
    x & m == y & m
  }

  /** The leftover bits of two octets. */
  predicate LeftoverSame(x: Byte, y: Byte, left: nat)
    requires left < 8
  {
    SameUnder(x, y, MaskBit(left))
  }

  lemma MaskedEqual(x: Byte, y: Byte, m: Byte)
    ensures SameUnder(x, y, m) <==> m & (x ^ y) == 0
  {
  }

  lemma LeftoverFits(x: Byte, y: Byte, left: nat)
    requires left < 8
    ensures LeftoverSame(x, y, left) <==> MaskBit(left) & (x ^ y) == 0
  {
    hide MaskBit, SameUnder;
    MaskedEqual(x, y, MaskBit(left));
  }

  /** `memcmp` on the first n octets. */
  method SameBytes(a: seq<Byte>, b: seq<Byte>, n: nat) returns (same: bool)
    requires n <= |a| && n <= |b|
    ensures same <==> forall m | 0 <= m < n :: a[m] == b[m]
  {
    var i := 0;
    while i < n && a[i] == b[i]
      invariant 0 <= i <= n && forall m | 0 <= m < i :: a[m] == b[m]
    {
      i := i + 1;
    }
    same := i == n;
  }

  /** The test of one assignment: whole octets, then the leftover bits under a mask. */
  method Test(a: Assignment, addr: seq<Byte>, len: nat) returns (match': bool)
    requires |addr| == 16
    ensures match' <==> KeyIn(a) <= Asked(addr, len)
  {
    hide BitsOf, MaskBit, AddrBit, KeyIn, Asked, LeftoverSame;
    match' := false;
    PrefixIsSameBits(a, addr, len);
    if len >= a.len {
      var whole, left := a.len / 8, a.len % 8;
      SameBitsByBytes(addr, a.addr, a.len);
      var same := SameBytes(addr, a.addr, whole);
      if same {
        if left == 0 {
          match' := true;
        } else {
          LeftoverFits(addr[whole], a.addr[whole], left);
          match' := LeftoverSame(addr[whole], a.addr[whole], left);
        }
      }
    }
  }

  lemma PrefixIsSameBits(a: Assignment, addr: seq<Byte>, len: nat)
    requires |addr| == 16
    ensures KeyIn(a) <= Asked(addr, len) <==> a.len <= len && SameBits(addr, a.addr, 0, a.len)
  {
    var n := if len > 128 then 128 else len;
    if a.len <= n {
      forall i | 0 <= i < a.len
        ensures KeyIn(a)[i] == AddrBit(a.addr, i) && Asked(addr, len)[i] == AddrBit(addr, i)
      {
        BitsOfAt(a.addr, a.len, i);
        BitsOfAt(addr, n, i);
      }
      if KeyIn(a) <= Asked(addr, len) {
        forall i | 0 <= i < a.len ensures AddrBit(addr, i) == AddrBit(a.addr, i) {
          assert KeyIn(a)[i] == Asked(addr, len)[i];
        }
      }
    }
  }

  /** The clamped length that the caller gets back: 128 if a scan for a longer one compares anything. */
  function Clamped(s: seq<Assignment>, length: nat, exact: bool): nat {
    if length > 128 && !exact && s != [] then 128 else length
  }

  /** The length that comes back is that of the bits that are compared, if a scan compares any. */
  lemma ClampedMeans(s: seq<Assignment>, addr: seq<Byte>, length: nat, exact: bool)
    requires |addr| == 16
    ensures !exact && s != [] ==> Clamped(s, length, exact) == |Asked(addr, length)|
    ensures exact || s == [] || length <= 128 ==> Clamped(s, length, exact) == length
  {
  }

  /** `flex_sort`. An address of all zeros means everybody at length 0 and an error at 128. The
      length is the caller's, and comes back in `len`. */
  method FlexSort(s: seq<Assignment>, planes: nat, default: int, addr: seq<Byte>, length: nat, exact: bool)
    returns (r: Choice, len: nat)
    requires |addr| == 16
    ensures planes == 0 ==> r == Error
    ensures planes > 0 && (forall j | 0 <= j < 16 :: addr[j] == 0) && length == 0 ==> r == All
    ensures planes > 0 && (forall j | 0 <= j < 16 :: addr[j] == 0) && length == 128 ==> r == Error
    ensures planes > 0 && !((forall j | 0 <= j < 16 :: addr[j] == 0) && (length == 0 || length == 128)) ==>
      match r
      case One(index) => exists i: nat :: Best(s, |s|, addr, length, exact, i) && index == s[i].assignee
      case Default(index) => index == default && forall j | 0 <= j < |s| :: !Matches(s[j], addr, length, exact)
      case _ => false
    ensures len == if planes == 0 then length else Clamped(s, length, exact)
  {
    hide Asked, KeyIn;
    if planes == 0 {
      return Error, length;
    }
    var j := 0;
    while j < 16 && addr[j] == 0
      invariant 0 <= j <= 16 && forall k | 0 <= k < j :: addr[k] == 0
    {
      j := j + 1;
    }
    if j == 16 {
      if length == 0 {
        return All, length;
      } else if length == 128 {
        return Error, length;
      }
    }
    r, len := Scan(s, default, addr, length, exact);
  }

  /** The scan of `flex_sort`. */
  method Scan(s: seq<Assignment>, default: int, addr: seq<Byte>, length: nat, exact: bool)
    returns (r: Choice, len: nat)
    requires |addr| == 16
    ensures match r
      case One(index) => exists i: nat :: Best(s, |s|, addr, length, exact, i) && index == s[i].assignee
      case Default(index) => index == default && forall j | 0 <= j < |s| :: !Matches(s[j], addr, length, exact)
      case _ => false
    ensures len == Clamped(s, length, exact)
  {
    hide KeyIn, BitsOf;
    var max: int, index := -1, default;
    len := length;
    ghost var at := 0;
    var i := 0;
    while i < |s|
      invariant 0 <= i <= |s| && len == if i == 0 then length else Clamped(s, length, exact)
      invariant max == -1 ==> forall j | 0 <= j < i :: !Matches(s[j], addr, length, exact)
      invariant max > -1 ==> Best(s, i, addr, length, exact, at) && max == s[at].len && index == s[at].assignee
      invariant max >= -1
    {
      if !(exact && len != s[i].len) {
        var found := Test(s[i], addr, len);
        assert Asked(addr, len) == Asked(addr, length);
        if len >= s[i].len && len > 128 {
          len := 128;
        }
        assert found <==> Matches(s[i], addr, length, exact);
        if found && s[i].len >= max {
          max, index, at := s[i].len, s[i].assignee, i;
        }
      }
      i := i + 1;
    }
    if max > -1 {
      r := One(index);
    } else {
      r := Default(default);
    }
  }

  /** Outside the special cases the scan finds what a longest-prefix match on the same prefixes
      finds, and among equal prefixes the last entry. */
  lemma ScanIsLongest(s: seq<Assignment>, addr: seq<Byte>, len: nat, i: nat)
    requires |addr| == 16 && Best(s, |s|, addr, len, false, i)
    ensures Lookups.IsLongest(set j | 0 <= j < |s| :: KeyIn(s[j]), Asked(addr, len), Some(KeyIn(s[i])))
    ensures forall j | i < j < |s| :: KeyIn(s[j]) != KeyIn(s[i])
  {
    hide KeyIn, Asked;
    forall j | 0 <= j < |s| && KeyIn(s[j]) <= Asked(addr, len) ensures KeyIn(s[j]) <= KeyIn(s[i]) {
      assert Matches(s[j], addr, len, false);
    }
    assert forall j | i < j < |s| :: KeyIn(s[j]) == KeyIn(s[i]) ==> Matches(s[j], addr, len, false);
  }

  /** What a longest-prefix match on the same prefixes finds, as a table's lookup does, is what the
      scan finds; it finds nothing exactly when the scan falls back to the default. */
  lemma SameMatch(s: seq<Assignment>, addr: seq<Byte>, len: nat, m: Option<Key>)
    requires |addr| == 16
    requires Lookups.IsLongest(set j | 0 <= j < |s| :: KeyIn(s[j]), Asked(addr, len), m)
    ensures forall i: nat | Best(s, |s|, addr, len, false, i) :: m == Some(KeyIn(s[i]))
    ensures m == None <==> forall j | 0 <= j < |s| :: !Matches(s[j], addr, len, false)
  {
    hide KeyIn, Asked;
    var keys := set j | 0 <= j < |s| :: KeyIn(s[j]);
    forall i: nat | Best(s, |s|, addr, len, false, i) ensures m == Some(KeyIn(s[i])) {
      ScanIsLongest(s, addr, len, i);
      Lookups.LongestUnique(keys, Asked(addr, len), m, Some(KeyIn(s[i])));
    }
    if m == None {
      forall j | 0 <= j < |s| ensures !Matches(s[j], addr, len, false) {
        assert KeyIn(s[j]) in keys;
      }
    } else {
      var j :| 0 <= j < |s| && KeyIn(s[j]) == m.value;
      assert Matches(s[j], addr, len, false);
    }
  }
}
