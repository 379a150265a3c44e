/** Longest-prefix lookups in a table: the walks of db_table.c and `ms_get_target` of db.c. */
module Lookups {
  import opened Types
  import opened Bits
  import opened Prefixes
  import opened Views
  import opened Shapes
  import opened Theory
  import opened Tries

  /** r is the longest of the keys that cover q, and None when none does. */
  ghost predicate IsLongest(keys: set<Key>, q: Key, r: Option<Key>) {
    match r
    case None => forall k | k in keys :: !(k <= q)
    case Some(m) => m in keys && m <= q && forall k | k in keys && k <= q :: k <= m
  }

  lemma LongestUnique(keys: set<Key>, q: Key, a: Option<Key>, b: Option<Key>)
    requires IsLongest(keys, q, a) && IsLongest(keys, q, b)
    ensures a == b
  {
    if a.Some? && b.Some? {
      assert a.value <= b.value && b.value <= a.value;
      assert a.value == b.value;
    }
  }

  ghost function WithInfo(v: View): set<Key> {
    set k | k in v && v[k].info != None
  }

  /** The nodes that carry a type, `flags && range`. */
  predicate IsTyped(e: Entry) {
    e.flags.Some? && e.flags.value.range != {}
  }

  /** A node is typed if it has some role. */
  lemma TypedMeans(v: View, k: Key)
    ensures k in Typed(v) <==> k in v && v[k].flags.Some? && exists r :: r in v[k].flags.value.range
  {
  }

  ghost function Typed(v: View): set<Key> {
    set k | k in v && IsTyped(v[k])
  }

  ghost function KeyOrNone(n: Node?): Option<Key> {
    if n == null then None else Some(n.key)
  }

  // ---------- getting and releasing prefixes changes no lookup ----------

  /** Gets and releases change neither what is found by information nor by type. */
  lemma GetKeepsLookups(v: View, k: Key)
    requires Canonical(v)
    ensures WithInfo(AfterGet(v, k)) == WithInfo(v)
    ensures Typed(AfterGet(v, k)) == Typed(v)
  {
    hide Meets, Canonical;
    LockedAfterGet(v, k);
  }

  ghost function Shorter(keys: set<Key>, m: Key): set<Key> {
    set k | k in keys && k < m
  }

  /** A release changes the longest match only for queries whose match goes, and those then find the
      longest of its prefixes that stay. */
  lemma UnlockKeepsMatch(v: View, k: Key, q: Key, m: Key)
    requires Canonical(v) && k in v && v[k].lock > 0 && (v[k].lock == 1 ==> v[k].info == None)
    requires IsLongest(v.Keys, q, Some(m))
    ensures m in AfterUnlock(v, k) ==> IsLongest(AfterUnlock(v, k).Keys, q, Some(m))
    ensures m !in AfterUnlock(v, k) ==> forall r ::
      IsLongest(AfterUnlock(v, k).Keys, q, r) <==> IsLongest(Shorter(AfterUnlock(v, k).Keys, m), m, r)
    ensures WithInfo(AfterUnlock(v, k)) == WithInfo(v)
  {
    hide Meets, Lcp;
    LockedAfterUnlock(v, k);
    var w := AfterUnlock(v, k);
    forall x | x in v && v[x].info != None ensures x in w {
      assert v[x].lock > 0;
      MeetsContains(Locked(w));
      assert x in Locked(w);
    }
    if m !in w {
      NextShorter(w.Keys, q, m);
    }
  }

  lemma NextShorter(keys: set<Key>, q: Key, m: Key)
    requires m !in keys && m <= q && forall k | k in keys && k <= q :: k <= m
    ensures forall r :: IsLongest(keys, q, r) <==> IsLongest(Shorter(keys, m), m, r)
  {
    var fewer := Shorter(keys, m);
    forall k ensures k in keys && k <= q <==> k in fewer && k <= m {
      assert k <= m && |k| == |m| ==> k == m;
    }
    SameCovers(keys, q, fewer, m);
  }

  lemma SameCovers(s: set<Key>, q: Key, t: set<Key>, m: Key)
    requires forall k :: k in s && k <= q <==> k in t && k <= m
    ensures forall r :: IsLongest(s, q, r) <==> IsLongest(t, m, r)
  {
    forall r ensures IsLongest(s, q, r) <==> IsLongest(t, m, r) {
    }
  }

  // ---------- the walk ----------

  /** Every wanted prefix of the key has been passed, or lies at or below the node reached. */
  ghost predicate Searched(s: Links, wanted: set<Node>, key: Key, matched: Node?, node: Node?) {
    && (matched != null ==> matched in wanted && matched.key <= key)
    && (node != null ==> node in s && (matched != null ==> matched.key <= node.key))
    && (forall x | x in wanted && x.key <= key ::
          (matched != null && x.key <= matched.key) || (node != null && node.key <= x.key))
  }

  lemma SearchStarts(top: Node?, s: Links, wanted: set<Node>, key: Key)
    requires Rooted(top, s) && wanted <= s.Keys
    ensures Searched(s, wanted, key, null, top)
  {
  }

  lemma SearchStep(s: Links, wanted: set<Node>, key: Key, matched: Node?, node: Node, bit: bool)
    requires Linked(s) && Routed(s) && UniqueKeys(s) && wanted <= s.Keys
    requires Searched(s, wanted, key, matched, node)
    requires node.key <= key && (|node.key| < |key| ==> bit == key[|node.key|])
    ensures Searched(s, wanted, key, if node in wanted then node else matched, s[node].Link(bit))
    ensures s[node].Link(bit) != null ==> s[node].Link(bit) in s && |node.key| < |s[node].Link(bit).key|
  {
    assert ChildLinked(s, node, bit);
    forall x | x in wanted && node.key <= x.key <= key && |node.key| < |x.key|
      ensures s[node].Link(bit) != null && s[node].Link(bit).key <= x.key
    {
      assert RoutedPair(s, node, x);
    }
  }

  lemma SearchEnds(s: Links, keys: set<Key>, wanted: set<Node>, key: Key, matched: Node?, node: Node?)
    requires Searched(s, wanted, key, matched, node) && (node == null || !(node.key <= key))
    requires keys == KeysOf(wanted)
    ensures IsLongest(keys, key, KeyOrNone(matched))
  {
  }

  lemma TrieParts(top: Node?, s: Links, family: Family)
    requires Trie(top, s, family)
    ensures Rooted(top, s) && Linked(s) && Routed(s) && UniqueKeys(s)
    ensures top != null ==> top in s
    ensures forall n | n in s :: n.key == KeyOf(n.p) && n.p.family == family
  {
    hide KeyOf, Linked, Routed, UniqueKeys;
    assert forall n | n in s :: Labelled(n, family);
  }

  /** The nodes whose information is set. */
  ghost function Informed(s: Links, v: View): set<Node>
    requires forall n | n in s :: n.key in v
  {
    set n | n in s && v[n.key].info != None
  }

  lemma StoredKeys(s: Links, v: View)
    requires Holds(s, v) && Consistent(s, v)
    ensures v.Keys == KeysOf(s.Keys)
    ensures WithInfo(v) == KeysOf(Informed(s, v))
    ensures forall n | n in s :: n.key in v && n.entry == v[n.key]
  {
  }

  /** `db_node_match_prefix`: locks and returns the longest stored prefix that covers p. */
  method MatchPrefix(t: Table, p: Prefix) returns (matched: Node?)
    requires t.Valid() && t.top != null && p.family == t.family
    modifies t`view, t.shape.Keys`entry
    ensures t.Valid() && (matched != null ==> matched in t.shape && matched.key in old(t.view))
    ensures IsLongest(old(t.view).Keys, KeyOf(p), KeyOrNone(matched))
    ensures t.view == if matched == null then old(t.view)
                      else old(t.view)[matched.key := Bumped(old(t.view), matched.key)]
  {
    hide KeyOf, Trie, Size, Searched, UniqueKeys, ConsistentBut, IsLongest, Rooted, Linked, Routed, KeysOf, WithInfo;
    matched := null;
    var node := t.top;
    TrieParts(t.top, t.shape, t.family);
    StoredKeys(t.shape, t.view);
    SearchStarts(t.top, t.shape, t.shape.Keys, KeyOf(p));
    while node != null && node.p.len <= p.len
      invariant (node != null ==> node in t.shape) && (matched != null ==> matched in t.shape)
      invariant Searched(t.shape, t.shape.Keys, KeyOf(p), matched, node)
      modifies {}
      decreases if node == null then 0 else 130 - |node.key|
    {
      var covers := PrefixMatch(node.p, p);
      if !covers {
        break;
      }
      var bit := CheckBit(p, node.p.len);
      SearchStep(t.shape, t.shape.Keys, KeyOf(p), matched, node, bit);
      matched := node;
      node := node.links.Link(bit);
    }
    SearchEnds(t.shape, t.view.Keys, t.shape.Keys, KeyOf(p), matched, node);
    if matched != null {
      t.Lock(matched, null);
    }
  }

  /** `db_node_match`: the same among the prefixes whose information is set. */
  method Match(t: Table, p: Prefix) returns (matched: Node?)
    requires t.Valid() && t.top != null && p.family == t.family
    modifies t`view, t.shape.Keys`entry
    ensures t.Valid() && (matched != null ==> matched in t.shape && matched.key in old(t.view))
    ensures IsLongest(WithInfo(old(t.view)), KeyOf(p), KeyOrNone(matched))
    ensures t.view == if matched == null then old(t.view)
                      else old(t.view)[matched.key := Bumped(old(t.view), matched.key)]
  {
    hide KeyOf, Trie, Size, Searched, UniqueKeys, ConsistentBut, IsLongest, Rooted, Linked, Routed, KeysOf, WithInfo;
    matched := null;
    var node := t.top;
    TrieParts(t.top, t.shape, t.family);
    StoredKeys(t.shape, t.view);
    ghost var wanted := Informed(t.shape, t.view);
    SearchStarts(t.top, t.shape, wanted, KeyOf(p));
    while node != null && node.p.len <= p.len
      invariant (node != null ==> node in t.shape) && (matched != null ==> matched in t.shape)
      invariant Searched(t.shape, wanted, KeyOf(p), matched, node)
      modifies {}
      decreases if node == null then 0 else 130 - |node.key|
    {
      var covers := PrefixMatch(node.p, p);
      if !covers {
        break;
      }
      var bit := CheckBit(p, node.p.len);
      SearchStep(t.shape, wanted, KeyOf(p), matched, node, bit);
      if node.entry.info.Some? {
        matched := node;
      }
      node := node.links.Link(bit);
    }
    SearchEnds(t.shape, WithInfo(t.view), wanted, KeyOf(p), matched, node);
    if matched != null {
      t.Lock(matched, null);
    }
  }

  /** The node of the key itself, if its information is set. */
  ghost function Exact(s: Links, v: View, key: Key): set<Node>
    requires forall n | n in s :: n.key in v
  {
    set n | n in s && v[n.key].info != None && n.key == key
  }

  lemma ExactFound(s: Links, v: View, key: Key, n: Node)
    requires Holds(s, v) && n in s && (n.key == key && n.entry.info != None <==> n in Exact(s, v, key))
    ensures n in Exact(s, v, key) ==> n.entry == v[key] && key in WithInfo(v)
  {
  }

  lemma ExactMisses(s: Links, v: View, key: Key)
    requires Holds(s, v) && Consistent(s, v)
    requires IsLongest(KeysOf(Exact(s, v, key)), key, None)
    ensures key !in WithInfo(v)
  {
    assert forall n | n in Exact(s, v, key) :: n.key in KeysOf(Exact(s, v, key));
    assert forall n | n in s && v[n.key].info != None && n.key == key :: n in Exact(s, v, key);
  }

  /** `db_node_match_exact`: finds the prefix itself, if its information is set. */
  method MatchExact(t: Table, p: Prefix) returns (matched: Node?)
    requires t.Valid() && t.top != null && p.family == t.family
    modifies t`view, t.shape.Keys`entry
    ensures t.Valid() && (matched != null ==> matched in t.shape && matched.key == KeyOf(p))
    ensures matched != null <==> KeyOf(p) in WithInfo(old(t.view))
    ensures t.view == if matched == null then old(t.view)
                      else old(t.view)[KeyOf(p) := Bumped(old(t.view), KeyOf(p))]
  {
    hide KeyOf, Trie, Size, Searched, UniqueKeys, ConsistentBut, IsLongest, Rooted, Linked, Routed, KeysOf, WithInfo;
    matched := null;
    var node := t.top;
    TrieParts(t.top, t.shape, t.family);
    StoredKeys(t.shape, t.view);
    ghost var wanted := Exact(t.shape, t.view, KeyOf(p));
    SearchStarts(t.top, t.shape, wanted, KeyOf(p));
    while node != null && node.p.len <= p.len
      invariant node != null ==> node in t.shape
      invariant matched == null && Searched(t.shape, wanted, KeyOf(p), null, node)
      modifies {}
      decreases if node == null then 0 else 130 - |node.key|
    {
      var covers := PrefixMatch(node.p, p);
      if !covers {
        break;
      }
      ExactFound(t.shape, t.view, KeyOf(p), node);
      if node.p.len == p.len && node.entry.info.Some? {
        matched := node;
        break;
      }
      var bit := CheckBit(p, node.p.len);
      SearchStep(t.shape, wanted, KeyOf(p), null, node, bit);
      node := node.links.Link(bit);
    }
    if matched != null {
      t.Lock(matched, null);
    } else {
      SearchEnds(t.shape, KeysOf(wanted), wanted, KeyOf(p), null, node);
      ExactMisses(t.shape, t.view, KeyOf(p));
    }
  }

  // ---------- ms_get_target ----------

  /** Every stored proper prefix of a node covers its parent. */
  lemma ParentCovers(s: Links, n: Node, x: Node)
    requires Linked(s) && Routed(s) && UniqueKeys(s) && n in s && x in s && s[n].parent != null
    requires x.key <= n.key && x != n
    ensures s[n].parent in s && x.key <= s[n].parent.key
    ensures s[n].parent.key <= n.key && |s[n].parent.key| < |n.key|
  {
    var p := s[n].parent;
    assert ParentLinked(s, n) && ChildLinked(s, p, false) && ChildLinked(s, p, true);
    assert RoutedPair(s, p, x);
  }

  /** `ms_get_target`: up the parents to the first typed node, or the top. */
  method Target(t: Table, start: Node) returns (node: Node)
    requires t.Valid() && start in t.shape
    ensures node in t.shape && t.top != null
    ensures IsLongest(Typed(t.view) + {t.top.key}, start.key, Some(node.key))
  {
    hide KeyOf, Trie, Size, UniqueKeys, ConsistentBut, Linked, Routed;
    TrieParts(t.top, t.shape, t.family);
    StoredKeys(t.shape, t.view);
    node := start;
    while !IsTyped(node.entry) && node != t.top
      invariant node in t.shape && node.key <= start.key
      invariant forall x | x in t.shape && (IsTyped(x.entry) || x == t.top) && x.key <= start.key :: x.key <= node.key
      decreases |node.key|
    {
      forall x | x in t.shape && (IsTyped(x.entry) || x == t.top) && x.key <= start.key
        ensures t.shape[node].parent in t.shape && x.key <= t.shape[node].parent.key
      {
        ParentCovers(t.shape, node, x);
      }
      ParentCovers(t.shape, node, t.top);
      node := node.links.parent;
    }
  }

  /** A lookup followed by `ms_get_target` is the longest match among the typed prefixes and the top. */
  lemma TargetIsLongest(stored: set<Key>, typed: set<Key>, q: Key, m: Key, r: Key)
    requires typed <= stored && IsLongest(stored, q, Some(m)) && IsLongest(typed, m, Some(r))
    ensures IsLongest(typed, q, Some(r))
  {
  }

  // ---------- ms_init_db ----------

  /** The flags of the root, `ms_new_node_ex(_ROOT)`. */
  const ROOT := Flags({}, 0, false, 0, false, 0, 0, false, None)

  lemma RootOnTop(top: Node?, s: Links, family: Family, v: View)
    requires Trie(top, s, family) && Consistent(s, v) && [] in v
    ensures top != null && top.key == []
  {
    hide Linked, Routed, UniqueKeys;
    var n :| n in s && n.key == [];
  }

  lemma FirstGet(v: View, k: Key)
    requires v == map[]
    ensures AfterGet(v, k) == map[k := Entry(1, None, None)]
  {
    hide Meets, Lcp;
    assert Locked(v) + {k} == {k};
    OnlyMeet(k);
    assert forall x :: x in AfterGet(v, k) <==> x == k;
  }

  lemma OnlyMeet(k: Key)
    ensures Meets({k}) == {k}
  {
    LcpUnique(k, k, k);
    assert k in {k};
    hide Lcp;
  }

  /** One table of `ms_init_db`: the root prefix of length 0 is stored and locked for good. As
      long as it is not released it stays on top. */
  method NewDb(family: Family) returns (t: Table)
    ensures t.Valid() && fresh(t) && t.family == family
    ensures t.top != null && t.top.key == [] && t.view == map[[] := Entry(1, None, Some(ROOT))] && t.lost == 0
    ensures forall n | n in t.shape :: fresh(n)
  {
    hide Trie, Size, ConsistentBut, Holds, AfterGet, Stored;
    t := new Table(family);
    FirstGet(t.view, []);
    var p := Prefix(family, 0, seq(16, _ => 0));
    assert KeyOf(p) == [];
    var n := t.Get(p);
    t.SetFlags(n, Some(ROOT));
    RootOnTop(t.top, t.shape, family, t.view);
  }
}
