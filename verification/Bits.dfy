/** Bit strings as the common language of prefixes: an EID prefix of length n is the
    sequence of its first n bits, "n covers p" is the built-in prefix order on
    sequences, and trie order is the lexicographic order with false before true. */
module Bits {

  type Key = seq<bool>

  /** The longest common prefix of two bit strings. */
  function Lcp(a: Key, b: Key): (r: Key)
    ensures r <= a && r <= b
    ensures |r| < |a| && |r| < |b| ==> a[|r|] != b[|r|]
  {
    if a == [] || b == [] || a[0] != b[0] then []
    else [a[0]] + Lcp(a[1..], b[1..])
  }

  /** Every common prefix is a prefix of the longest one. */
  lemma LcpGreatest(c: Key, a: Key, b: Key)
    requires c <= a && c <= b
    ensures c <= Lcp(a, b)
  {
    var r := Lcp(a, b);
    if |c| > |r| {
      assert false;
    }
  }

  /** `Lcp` is fixed by being a common prefix after which the two strings differ. */
  lemma LcpUnique(c: Key, a: Key, b: Key)
    requires c <= a && c <= b
    requires |c| < |a| && |c| < |b| ==> a[|c|] != b[|c|]
    ensures c == Lcp(a, b)
  {
    var r := Lcp(a, b);
    LcpGreatest(c, a, b);
    if |c| < |r| {
      assert false;
    }
  }

  lemma LcpSymmetric(a: Key, b: Key)
    ensures Lcp(a, b) == Lcp(b, a)
  {
    LcpUnique(Lcp(b, a), a, b);
  }

  /** Two prefixes overlap when some address lies in both, that is, when one covers the other. */
  predicate Overlap(a: Key, b: Key) {
    a <= b || b <= a
  }

  /** Lexicographic order, a proper prefix first: the order in which a trie is walked. */
  predicate Before(a: Key, b: Key) {
    var r := Lcp(a, b);
    |r| < |b| && (|r| == |a| || !a[|r|])
  }

  /** A proper prefix comes first; otherwise the one with a zero where the two part. */
  lemma BeforeMeans(a: Key, b: Key)
    ensures Before(a, b) <==> a < b || exists k :: 0 <= k < |a| && k < |b| && a[..k] == b[..k] && !a[k] && b[k]
  {
    var r := Lcp(a, b);
    assert r == a[..|r|] == b[..|r|];
    if k :| 0 <= k < |a| && k < |b| && a[..k] == b[..k] && !a[k] && b[k] {
      LcpUnique(a[..k], a, b);
    }
    if a < b {
      LcpUnique(a, a, b);
    }
  }

  lemma BeforeTotal(a: Key, b: Key)
    ensures Before(a, b) || a == b || Before(b, a)
    ensures !(Before(a, b) && Before(b, a))
    ensures !Before(a, a)
  {
    LcpSymmetric(a, b);
    LcpUnique(a, a, a);
  }

  lemma BeforeTransitive(a: Key, b: Key, c: Key)
    requires Before(a, b) && Before(b, c)
    ensures Before(a, c)
  {
    var ab, bc := Lcp(a, b), Lcp(b, c);
    if |ab| <= |bc| {
      assert ab <= c by { assert ab <= bc; }
      if |ab| < |bc| {
        assert b[|ab|] == c[|ab|];
        LcpUnique(ab, a, c);
      } else if |ab| == |a| {
        LcpUnique(ab, a, c);
      } else {
        assert false;
      }
    } else {
      assert bc <= a by { assert bc <= ab; }
      assert a[|bc|] == b[|bc|];
      LcpUnique(bc, a, c);
    }
  }

  /** A walk in trie order: every step goes strictly forward. */
  ghost predicate Ascending(s: seq<Key>) {
    forall i, j | 0 <= i < j < |s| :: Before(s[i], s[j])
  }

  /** An ascending walk is determined by the set of keys it visits. */
  lemma {:induction false} AscendingUnique(s: seq<Key>, t: seq<Key>)
    requires Ascending(s) && Ascending(t)
    requires forall k :: k in s <==> k in t
    ensures s == t
  {
    assert |t| > 0 ==> t[0] in t;
    if s == [] {
    } else {
      assert s[0] in s;
      assert t[0] in t by { assert t != []; }
      BeforeTotal(s[0], t[0]);
      forall k | k in s[1..] ensures k in t[1..] {
        var i :| 1 <= i < |s| && s[i] == k;
        BeforeTotal(s[0], s[i]);
        assert k in t;
      }
      forall k | k in t[1..] ensures k in s[1..] {
        var i :| 1 <= i < |t| && t[i] == k;
        BeforeTotal(t[0], t[i]);
        assert k in s;
      }
      AscendingUnique(s[1..], t[1..]);
    }
  }

  /** The meets of the members of a set; since Lcp(a, a) == a it contains the set. */
  ghost function Meets(s: set<Key>): (r: set<Key>) {
    set a, b | a in s && b in s :: Lcp(a, b)
  }

  lemma MeetsContains(s: set<Key>)
    ensures s <= Meets(s)
  {
    forall a | a in s ensures a in Meets(s) {
      LcpUnique(a, a, a);
      assert Lcp(a, a) == a;
    }
  }
}
