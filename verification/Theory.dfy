/** Consequences of the trie shape: which keys a trie stores, and in which order it is walked. */
module Theory {
  import opened Types
  import opened Bits
  import opened Views
  import opened Prefixes
  import opened Shapes

  ghost function KeysOf(nodes: set<Node>): set<Key> {
    set n | n in nodes :: n.key
  }

  /** Every node outside `locked` branches. */
  ghost predicate Branching(s: Links, locked: set<Node>) {
    forall n | n in s && n !in locked :: s[n].left != null && s[n].right != null
  }

  ghost predicate Bounded(s: Links) {
    forall n | n in s :: |n.key| <= 128
  }

  lemma TrieBounded(top: Node?, s: Links, family: Family)
    requires Trie(top, s, family)
    ensures Bounded(s)
  {
    hide Shape;
    forall n | n in s ensures |n.key| <= 128 {
      assert Labelled(n, family);
    }
  }

  /** The descent for two stored keys parts at their meet, which is therefore stored. */
  lemma {:induction false} MeetBelow(s: Links, x: Node, a: Node, b: Node) returns (n: Node)
    requires Linked(s) && Routed(s) && x in s && a in s && b in s
    requires x.key <= a.key && x.key <= b.key
    ensures n in s && n.key == Lcp(a.key, b.key)
    decreases |a.key| - |x.key|
  {
    var k := |x.key|;
    if |x.key| < |a.key| && |x.key| < |b.key| && a.key[k] == b.key[k] {
      assert RoutedPair(s, x, a) && RoutedPair(s, x, b);
      assert ChildLinked(s, x, a.key[k]);
      n := MeetBelow(s, s[x].Link(a.key[k]), a, b);
    } else {
      n := x;
      LcpUnique(x.key, a.key, b.key);
    }
  }

  /** Below every node there is a locked one. */
  lemma {:induction false} LockedBelow(s: Links, locked: set<Node>, n: Node) returns (m: Node)
    requires Linked(s) && Bounded(s) && Branching(s, locked) && n in s
    ensures m in locked && m in s && n.key <= m.key
    decreases 128 - |n.key|
  {
    if n in locked {
      m := n;
    } else {
      assert ChildLinked(s, n, false);
      m := LockedBelow(s, locked, s[n].left);
    }
  }

  /** A node outside `locked` is the meet of a locked node on either side. */
  lemma StubIsMeet(s: Links, locked: set<Node>, n: Node)
    requires Linked(s) && Bounded(s) && Branching(s, locked) && n in s
    ensures n.key in Meets(KeysOf(locked))
  {
    if n in locked {
      MeetsContains(KeysOf(locked));
    } else {
      assert ChildLinked(s, n, false) && ChildLinked(s, n, true);
      var a := LockedBelow(s, locked, s[n].left);
      var b := LockedBelow(s, locked, s[n].right);
      LcpUnique(n.key, a.key, b.key);
      assert a.key in KeysOf(locked) && b.key in KeysOf(locked);
    }
  }

  /** A trie whose stubs all branch stores exactly the meets of its locked keys: its contents
      do not depend on the order of the operations that led to it. */
  lemma StoredAreMeets(top: Node?, s: Links, family: Family, locked: set<Node>)
    requires Trie(top, s, family) && locked <= s.Keys && Branching(s, locked)
    ensures KeysOf(s.Keys) == Meets(KeysOf(locked))
  {
    TrieBounded(top, s, family);
    assert Linked(s) && Routed(s) && Rooted(top, s);
    hide Linked, Routed, Bounded;
    forall k | k in KeysOf(s.Keys) ensures k in Meets(KeysOf(locked)) {
      var n :| n in s && n.key == k;
      StubIsMeet(s, locked, n);
    }
    forall k | k in Meets(KeysOf(locked)) ensures k in KeysOf(s.Keys) {
      var p, q :| p in KeysOf(locked) && q in KeysOf(locked) && k == Lcp(p, q);
      var a :| a in locked && a.key == p;
      var b :| b in locked && b.key == q;
      var n := MeetBelow(s, top, a, b);
    }
  }

  // ---------- structure and contents together ----------

  /** The view has an entry for every node, and a node without locks, other than `open`, branches
      and holds nothing. */
  ghost predicate ConsistentBut(s: Links, v: View, open: Node?) {
    && v.Keys == KeysOf(s.Keys)
    && (forall n | n in s ::
          n.key in v && (v[n.key].lock == 0 ==> v[n.key].info == None && (n == open || Branches(s, n))))
  }

  ghost predicate Consistent(s: Links, v: View) {
    ConsistentBut(s, v, null)
  }

  lemma ConsistentCanonical(top: Node?, s: Links, family: Family, v: View)
    requires Trie(top, s, family) && Consistent(s, v)
    ensures Canonical(v)
  {
    hide Trie, Meets;
    var locked := set n | n in s && v[n.key].lock > 0;
    assert Branching(s, locked);
    StoredAreMeets(top, s, family, locked);
    assert KeysOf(locked) == Locked(v);
  }

  lemma FreshKey(s: Links, t: Links, v: View, n: Node)
    requires v.Keys == KeysOf(s.Keys) && UniqueKeys(t) && n !in s && t.Keys == s.Keys + {n}
    ensures n.key !in v
  {
    assert forall m | m in s.Keys + {n} :: m in t;
    if n.key in v {
      assert false;
    }
  }

  /** A new locked node, which fills the open branch if there is one. */
  lemma LeafConsistent(s: Links, t: Links, v: View, open: Node?, n: Node)
    requires ConsistentBut(s, v, open) && UniqueKeys(t) && n !in s && t.Keys == s.Keys + {n}
    requires forall m | m in s && Branches(s, m) :: Branches(t, m)
    requires open != null && open in t ==> Branches(t, open)
    ensures n.key !in v && Consistent(t, v[n.key := Entry(1, None, None)])
  {
    hide UniqueKeys;
    FreshKey(s, t, v, n);
  }

  /** A new stub that still has to get its second child. */
  lemma BranchConsistent(s: Links, t: Links, v: View, n: Node)
    requires Consistent(s, v) && UniqueKeys(t) && n !in s && t.Keys == s.Keys + {n}
    requires forall m | m in s && Branches(s, m) :: Branches(t, m)
    ensures n.key !in v && ConsistentBut(t, v[n.key := STUB], n)
  {
    hide UniqueKeys;
    FreshKey(s, t, v, n);
  }

  /** One more lock keeps everything, and closes an open branch. */
  lemma LockConsistent(s: Links, v: View, open: Node?, n: Node)
    requires ConsistentBut(s, v, open) && n in s && (open == null || open == n) && UniqueKeys(s)
    ensures n.key in v && Consistent(s, v[n.key := Bumped(v, n.key)])
  {
  }

  lemma TrieUnique(top: Node?, s: Links, family: Family)
    requires Trie(top, s, family)
    ensures UniqueKeys(s)
  {
  }

  lemma {:induction false} CountedKeys(nodes: set<Node>)
    requires forall x, m | x in nodes && m in nodes && x.key == m.key :: x == m
    ensures |KeysOf(nodes)| == |nodes|
  {
    if nodes != {} {
      var n :| n in nodes;
      CountedKeys(nodes - {n});
      assert KeysOf(nodes) == KeysOf(nodes - {n}) + {n.key};
      assert n.key !in KeysOf(nodes - {n});
    }
  }
}
