/** The walks over a table: `db_table_top`, `db_route_next`, `db_route_next_until` and the
    recursive `ms_get_tree`. */
module Walks {
  import opened Types
  import opened Bits
  import opened Prefixes
  import opened Views
  import opened Shapes
  import opened Theory
  import opened Tries
  import opened Lookups

  // ---------- the order of a trie ----------

  lemma PrefixBefore(a: Key, b: Key)
    requires a < b
    ensures Before(a, b)
  {
    LcpUnique(a, a, b);
  }

  lemma PartBefore(c: Key, a: Key, b: Key)
    requires c <= a && c <= b && |c| < |a| && |c| < |b| && a[|c|] != b[|c|]
    ensures Before(a, b) <==> !a[|c|]
  {
    LcpUnique(c, a, b);
  }

  /** What comes after a key without lying below it comes after everything below the key. */
  lemma BeforeOutside(a: Key, b: Key, x: Key)
    requires Before(a, x) && !(a <= x) && a <= b
    ensures Before(b, x)
  {
    var m := Lcp(a, x);
    assert m <= b;
    assert b[|m|] == a[|m|];
    PartBefore(m, a, x);
    PartBefore(m, b, x);
  }

  /** r is the first of the keys after k. */
  ghost predicate Follows(keys: set<Key>, k: Key, r: Option<Key>) {
    match r
    case None => forall x | x in keys :: !Before(k, x)
    case Some(n) => n in keys && Before(k, n) && forall x | x in keys && Before(k, x) :: x == n || Before(n, x)
  }

  /** The stored keys at or below a limit. */
  ghost function Within(s: Links, limit: Key): set<Key> {
    set n | n in s && limit <= n.key :: n.key
  }

  /** The first child, left before right, follows its parent. */
  lemma ChildFollows(s: Links, limit: Key, n: Node, bit: bool)
    requires Linked(s) && Routed(s) && UniqueKeys(s) && n in s && limit <= n.key
    requires s[n].Link(bit) != null && (bit ==> s[n].left == null)
    ensures Follows(Within(s, limit), n.key, Some(s[n].Link(bit).key))
  {
    var c := s[n].Link(bit);
    assert ChildLinked(s, n, bit);
    PrefixBefore(n.key, c.key);
    forall x | x in s && Before(n.key, x.key) ensures x == c || Before(c.key, x.key) {
      BeforeTotal(n.key, x.key);
      if n.key <= x.key {
        assert RoutedPair(s, n, x);
        if x.key[|n.key|] == bit {
          if x != c {
            assert c.key <= x.key;
            assert c.key != x.key;
            PrefixBefore(c.key, x.key);
          }
        } else {
          PartBefore(n.key, c.key, x.key);
        }
      } else {
        BeforeOutside(n.key, c.key, x.key);
      }
    }
  }

  /** Nothing at or below `node` comes after `start`. */
  ghost predicate Climbed(s: Links, start: Node, node: Node) {
    && start in s && node in s && node.key <= start.key
    && forall x | x in s && node.key <= x.key :: !Before(start.key, x.key)
  }

  lemma LeafClimbed(s: Links, n: Node)
    requires Routed(s) && UniqueKeys(s) && n in s && s[n].left == null && s[n].right == null
    ensures Climbed(s, n, n)
  {
    forall x | x in s && n.key <= x.key ensures !Before(n.key, x.key) {
      assert RoutedPair(s, n, x);
      BeforeTotal(n.key, n.key);
    }
  }

  /** Up from a right child, or from a left child without a sibling. */
  lemma ClimbStep(s: Links, start: Node, node: Node)
    requires Linked(s) && Routed(s) && UniqueKeys(s) && Climbed(s, start, node) && s[node].parent != null
    requires s[node].parent in s ==> s[s[node].parent].left != node || s[s[node].parent].right == null
    ensures s[node].parent in s && |s[node].parent.key| < |node.key| && Climbed(s, start, s[node].parent)
  {
    var p := s[node].parent;
    ParentCovers(s, node, p);
    assert ParentLinked(s, node) && ChildLinked(s, p, false) && ChildLinked(s, p, true);
    forall x | x in s && p.key <= x.key ensures !Before(start.key, x.key) {
      assert RoutedPair(s, p, x);
      if x == p {
        PrefixBefore(p.key, start.key);
        BeforeTotal(p.key, start.key);
      } else if !(node.key <= x.key) {
        assert node == s[p].right && x.key[|p.key|] == false;
        PartBefore(p.key, x.key, start.key);
        BeforeTotal(x.key, start.key);
      }
    }
  }

  /** The right sibling of a left child that has been climbed to follows. */
  lemma SiblingFollows(s: Links, limit: Key, start: Node, node: Node, p: Node)
    requires Linked(s) && Routed(s) && UniqueKeys(s) && Climbed(s, start, node)
    requires p in s && s[p].left == node && s[p].right != null && limit <= p.key
    ensures s[p].right in s && Follows(Within(s, limit), start.key, Some(s[p].right.key))
  {
    var r := s[p].right;
    assert ChildLinked(s, p, false) && ChildLinked(s, p, true);
    PartBefore(p.key, start.key, r.key);
    forall x | x in s && Before(start.key, x.key) ensures x == r || Before(r.key, x.key) {
      if p.key <= x.key {
        assert RoutedPair(s, p, x);
        if x == p {
          PrefixBefore(p.key, start.key);
          BeforeTotal(p.key, start.key);
        } else if x != r {
          assert r.key <= x.key && r.key != x.key;
          PrefixBefore(r.key, x.key);
        }
      } else {
        ClimbedOutside(start.key, p.key, r.key, x.key);
      }
    }
  }

  lemma ClimbedOutside(a: Key, p: Key, r: Key, x: Key)
    requires p <= a && p <= r && !(p <= x) && Before(a, x)
    ensures Before(r, x)
  {
    if x <= a {
      if x != a {
        PrefixBefore(x, a);
        BeforeTotal(x, a);
      }
    } else if a <= x {
    } else {
      var m := Lcp(a, x);
      assert m <= p;
      assert p[|m|] == a[|m|];
      PartBefore(m, a, x);
      PartBefore(m, r, x);
    }
  }

  // ---------- one step ----------

  /** One lock more on a key, if there is one. */
  ghost function Locking(v: View, k: Option<Key>): View {
    if k == None then v else v[k.value := Bumped(v, k.value)]
  }

  /** One lock more on the next key, and one less on the current one, which may take it and
      stubs above it away. */
  ghost predicate Moved(v: View, k: Key, next: Option<Key>, w: View) {
    var u := Locking(v, next);
    k in u && u[k].lock > 0 && w == AfterUnlock(u, k)
  }

  /** The same when nothing goes away. */
  ghost predicate Stayed(v: View, k: Key, next: Option<Key>, w: View) {
    var u := Locking(v, next);
    k in u && u[k].lock > 0 && w == u[k := u[k].(lock := u[k].lock - 1)]
  }

  /** May the lock on a node be released? */
  ghost predicate Releasable(e: Entry) {
    e.lock > 0 && (e.lock == 1 ==> e.info == None)
  }

  /** `db_table_top`. */
  method First(t: Table) returns (n: Node?)
    requires t.Valid()
    modifies t`view, t.shape.Keys`entry
    ensures t.Valid() && n == t.top && (n != null ==> n in t.shape)
    ensures t.view == Locking(old(t.view), KeyOrNone(n))
  {
    hide Trie, Size, ConsistentBut;
    TrieParts(t.top, t.shape, t.family);
    n := t.top;
    if n != null {
      t.Lock(n, null);
    }
  }

  /** Locks the next node and releases the current one: the common end of every step. */
  method Move(t: Table, node: Node, next: Node)
    requires t.Valid() && node in t.shape && next in t.shape && node != next && Releasable(node.entry)
    modifies t`top, t`count, t`shape, t`view, t.shape.Keys`links, t.shape.Keys`entry
    ensures t.Valid() && next in t.shape && forall n | n in t.shape :: n in old(t.shape)
    ensures Moved(old(t.view), node.key, Some(next.key), t.view)
    ensures old(node.entry.lock) > 1 || old(Branches(t.shape, node)) ==>
      && t.shape == old(t.shape) && t.top == old(t.top)
      && Stayed(old(t.view), node.key, Some(next.key), t.view)
  {
    hide Trie, Size, ConsistentBut, Canonical, Labelled, Branches, KeysOf, Meets;
    TrieUnique(t.top, t.shape, t.family);
    ConsistentCanonical(t.top, t.shape, t.family, t.view);
    StoredKeys(t.shape, t.view);
    t.Lock(next, null);
    ConsistentCanonical(t.top, t.shape, t.family, t.view);
    ghost var locked := t.view;
    assert node.entry == locked[node.key];
    LockedAfterUnlock(locked, node.key);
    t.Unlock(node);
    StillLocked(locked, node.key, next.key);
  }

  lemma StillLocked(v: View, k: Key, x: Key)
    requires Canonical(v) && k in v && x in v && k != x && Releasable(v[k]) && v[x].lock > 0
    ensures x in AfterUnlock(v, k)
  {
    hide Meets, Lcp, Canonical;
    LockedAfterUnlock(v, k);
    assert x in Locked(AfterUnlock(v, k));
  }

  ghost function Floor(limit: Node?): Key {
    if limit == null then [] else limit.key
  }

  /** The search in `db_route_next` and `db_route_next_until`, which differ in the limit only:
      the first child, or else the right sibling of the nearest left child on the way up. */
  method Successor(t: Table, start: Node, limit: Node?) returns (next: Node?)
    requires t.Valid() && start in t.shape && (limit != null ==> limit in t.shape && limit.key <= start.key)
    ensures next != null ==> next in t.shape && next != start
    ensures Follows(Within(t.shape, Floor(limit)), start.key, KeyOrNone(next))
  {
    hide Trie, Size, ConsistentBut, Holds, UniqueKeys, Routed, Follows, Climbed, Within, KeysOf, KeyOf, Rooted;
    TrieParts(t.top, t.shape, t.family);
    next := FirstChild(t, start, limit);
    if next != null {
      return;
    }
    LeafClimbed(t.shape, start);
    var node := start;
    while node.links.parent != null && node != limit
      invariant node in t.shape && Floor(limit) <= node.key && Climbed(t.shape, start, node)
      modifies {}
      decreases |node.key|
    {
      var parent := node.links.parent;
      ParentFloor(t.shape, node, limit);
      if parent.links.left == node && parent.links.right != null {
        SiblingFollows(t.shape, Floor(limit), start, node, parent);
        next := parent.links.right;
        SiblingOther(t.shape, Floor(limit), start, next);
        return;
      }
      ClimbStep(t.shape, start, node);
      node := parent;
    }
    next := null;
    ClimbEnds(t.top, t.shape, limit, start, node);
  }

  method FirstChild(t: Table, start: Node, limit: Node?) returns (next: Node?)
    requires t.Valid() && start in t.shape && (limit != null ==> limit in t.shape && limit.key <= start.key)
    ensures next != null ==> next in t.shape && next != start
    ensures next != null ==> Follows(Within(t.shape, Floor(limit)), start.key, Some(next.key))
    ensures next == null ==> start.links.left == null && start.links.right == null
  {
    hide Trie, Size, ConsistentBut, Holds, UniqueKeys, Routed, Follows, Within, KeysOf, KeyOf, Rooted;
    TrieParts(t.top, t.shape, t.family);
    next := if start.links.left != null then start.links.left else start.links.right;
    if next != null {
      ChildFollows(t.shape, Floor(limit), start, start.links.left == null);
      ChildStored(t.shape, start, start.links.left == null);
    }
  }

  /** `db_route_next_until`, or `db_route_next` when there is no limit: the next node in trie
      order at or below the limit; the lock moves with the walk. */
  method Next(t: Table, start: Node, limit: Node?) returns (next: Node?)
    requires t.Valid() && start in t.shape && Releasable(start.entry)
    requires limit != null ==> limit in t.shape && limit.key <= start.key
    modifies t`top, t`count, t`shape, t`view, t.shape.Keys`links, t.shape.Keys`entry
    ensures t.Valid() && (next != null ==> next in t.shape) && forall n | n in t.shape :: n in old(t.shape)
    ensures Follows(Within(old(t.shape), Floor(limit)), start.key, KeyOrNone(next))
    ensures Moved(old(t.view), start.key, KeyOrNone(next), t.view)
    ensures old(start.entry.lock) > 1 || old(Branches(t.shape, start)) ==>
      t.shape == old(t.shape) && t.top == old(t.top) && Stayed(old(t.view), start.key, KeyOrNone(next), t.view)
  {
    hide Trie, Size, ConsistentBut, Holds, Stored, Moved, Stayed, Follows, Within, Branches;
    next := Successor(t, start, limit);
    if next != null {
      Move(t, start, next);
    } else {
      Release(t, start);
    }
  }

  lemma ChildStored(s: Links, n: Node, bit: bool)
    requires Linked(s) && n in s && s[n].Link(bit) != null
    ensures s[n].Link(bit) in s && s[n].Link(bit) != n
  {
    assert ChildLinked(s, n, bit);
  }

  lemma ParentFloor(s: Links, n: Node, limit: Node?)
    requires Linked(s) && Routed(s) && UniqueKeys(s) && n in s && s[n].parent != null && n != limit
    requires limit != null ==> limit in s && limit.key <= n.key
    ensures s[n].parent in s && Floor(limit) <= s[n].parent.key
  {
    assert ParentLinked(s, n);
    if limit != null {
      ParentCovers(s, n, limit);
    }
  }

  lemma SiblingOther(s: Links, limit: Key, start: Node, next: Node)
    requires Follows(Within(s, limit), start.key, Some(next.key))
    ensures next != start
  {
    BeforeTotal(start.key, start.key);
  }

  /** The climb ends at the limit or at the top, which is the limit or above it. */
  lemma ClimbEnds(top: Node?, s: Links, limit: Node?, start: Node, node: Node)
    requires Rooted(top, s) && UniqueKeys(s) && Climbed(s, start, node) && (limit != null ==> limit in s)
    requires s[node].parent == null || node == limit
    ensures Follows(Within(s, Floor(limit)), start.key, None)
  {
  }

  /** The end of a walk: the last node is released. */
  method Release(t: Table, node: Node)
    requires t.Valid() && node in t.shape && Releasable(node.entry)
    modifies t`top, t`count, t`shape, t`view, t.shape.Keys`links, t.shape.Keys`entry
    ensures t.Valid() && forall n | n in t.shape :: n in old(t.shape)
    ensures Moved(old(t.view), node.key, None, t.view)
    ensures old(node.entry.lock) > 1 || old(Branches(t.shape, node)) ==>
      t.shape == old(t.shape) && t.top == old(t.top) && Stayed(old(t.view), node.key, None, t.view)
  {
    hide Trie, Size, ConsistentBut, Canonical, Labelled, Branches, KeysOf, Meets;
    t.Unlock(node);
  }

  // ---------- whole walks ----------

  ghost function KeySeq(ns: seq<Node>): (ks: seq<Key>)
    ensures |ks| == |ns| && forall i | 0 <= i < |ns| :: ks[i] == ns[i].key
  {
    seq(|ns|, i requires 0 <= i < |ns| => ns[i].key)
  }

  /** A walk in progress: what is done is in order, and exactly the rest is still ahead. */
  ghost predicate Walked(keys: set<Key>, done: seq<Key>, at: Option<Key>) {
    && Ascending(done)
    && (forall k | k in done :: k in keys && (at.Some? ==> Before(k, at.value)))
    && (at.Some? ==> at.value in keys)
    && (forall k | k in keys && k !in done :: at.Some? && (k == at.value || Before(at.value, k)))
  }

  lemma WalkStarts(top: Node?, s: Links, limit: Node?)
    requires Rooted(top, s) && (limit != null ==> limit in s)
    ensures Walked(Within(s, Floor(limit)), [], KeyOrNone(if limit == null then top else limit))
  {
    var from := if limit == null then top else limit;
    forall k | k in Within(s, Floor(limit)) ensures from != null && (k == from.key || Before(from.key, k)) {
      if k != from.key {
        PrefixBefore(from.key, k);
      }
    }
  }

  lemma WalkStep(keys: set<Key>, done: seq<Key>, at: Key, next: Option<Key>)
    requires Walked(keys, done, Some(at)) && Follows(keys, at, next)
    ensures at !in done && Walked(keys, done + [at], next)
  {
    hide Lcp, Before;
    var more := done + [at];
    BeforeTotal(at, at);
    assert Ascending(more);
    forall k | k in done && next.Some? ensures Before(k, next.value) {
      BeforeTransitive(k, at, next.value);
    }
    forall k | k in keys && k !in more ensures next.Some? && (k == next.value || Before(next.value, k)) {
      assert k !in done && k != at;
    }
  }

  /** The extra lock of a walk moves on without a trace. */
  lemma LockMovesOn(v: View, k: Key, next: Option<Key>, w: View)
    requires k in v && Stayed(Locking(v, Some(k)), k, next, w) && (next.Some? ==> next.value in v && next.value != k)
    ensures w == Locking(v, next)
  {
  }

  lemma WalkerHolds(s: Links, v: View, n: Node)
    requires Consistent(s, v) && n in s && n.key in v
    ensures Releasable(Bumped(v, n.key)) && (Bumped(v, n.key).lock > 1 || Branches(s, n))
  {
  }

  lemma NextElsewhere(s: Links, v: View, floor: Key, k: Key, next: Option<Key>)
    requires Follows(Within(s, floor), k, next) && Consistent(s, v)
    ensures next.Some? ==> next.value in v && next.value != k
  {
    BeforeTotal(k, k);
  }

  lemma WalkEnds(keys: set<Key>, done: seq<Key>)
    requires Walked(keys, done, None)
    ensures Ascending(done) && forall k :: k in done <==> k in keys
  {
  }

  /** One step of a walk that holds one lock of its own. */
  method Advance(t: Table, n: Node, limit: Node?, ghost s: Links, ghost v: View) returns (next: Node?)
    requires t.Valid() && t.shape == s && Consistent(s, v) && n in s && t.view == Locking(v, Some(n.key))
    requires limit != null ==> limit in s && limit.key <= n.key
    modifies t`top, t`count, t`shape, t`view, t.shape.Keys`links, t.shape.Keys`entry
    ensures t.Valid() && t.shape == s && t.top == old(t.top) && t.view == Locking(v, KeyOrNone(next))
    ensures Follows(Within(s, Floor(limit)), n.key, KeyOrNone(next)) && (next != null ==> next in s)
  {
    hide Trie, Size, ConsistentBut, Stored, Stayed, Moved, Within, Follows, Branches, Bumped;
    StoredKeys(s, t.view);
    KeyHeld(s, v, n);
    WalkerHolds(s, v, n);
    next := Next(t, n, limit);
    NextElsewhere(s, v, Floor(limit), n.key, KeyOrNone(next));
    LockMovesOn(v, n.key, KeyOrNone(next), t.view);
  }

  lemma KeyHeld(s: Links, v: View, n: Node)
    requires Consistent(s, v) && n in s
    ensures n.key in v
  {
  }

  lemma WithinFloor(s: Links, limit: Node?, done: seq<Key>, k: Key)
    requires Walked(Within(s, Floor(limit)), done, Some(k))
    ensures limit != null ==> limit.key <= k
  {
  }

  /** From `db_table_top`, or from a locked node, through `db_route_next` to the end: every node
      at or below the start is visited exactly once, in trie order, and the table is left as it was. */
  method Visit(t: Table, limit: Node?) returns (visited: seq<Node>)
    requires t.Valid() && (limit != null ==> limit in t.shape)
    modifies t`top, t`count, t`shape, t`view, t.shape.Keys`links, t.shape.Keys`entry
    ensures t.Valid() && t.view == old(t.view) && t.shape == old(t.shape) && t.top == old(t.top)
    ensures Ascending(KeySeq(visited)) && forall n | n in visited :: n in t.shape
    ensures forall k :: k in KeySeq(visited) <==> k in Within(t.shape, Floor(limit))
  {
    hide Trie, Size, Consistent, Holds, Stored, Walked, Within, Follows, Bumped, Ascending, KeySeq, Ahead;
    ghost var s, v, keys := t.shape, t.view, Within(t.shape, Floor(limit));
    visited := [];
    var n := Begin(t, limit);
    while n != null
      invariant t.Valid() && t.shape == s && t.top == old(t.top) && (n != null ==> n in s)
      invariant t.view == Locking(v, KeyOrNone(n)) && Walked(keys, KeySeq(visited), KeyOrNone(n))
      invariant forall x | x in visited :: x in s
      decreases Ahead(keys, KeySeq(visited))
    {
      WithinFloor(s, limit, KeySeq(visited), n.key);
      var next := Advance(t, n, limit, s, v);
      Recorded(keys, visited, n, KeyOrNone(next));
      visited := visited + [n];
      n := next;
    }
    WalkEnds(keys, KeySeq(visited));
  }

  /** Locks the node a walk starts from. */
  method Begin(t: Table, limit: Node?) returns (n: Node?)
    requires t.Valid() && (limit != null ==> limit in t.shape)
    modifies t`view, t.shape.Keys`entry
    ensures t.Valid() && (n != null ==> n in t.shape) && t.view == Locking(old(t.view), KeyOrNone(n))
    ensures Walked(Within(t.shape, Floor(limit)), KeySeq([]), KeyOrNone(n))
  {
    hide Trie, Size, ConsistentBut, Stored, Walked, Within;
    TrieParts(t.top, t.shape, t.family);
    WalkStarts(t.top, t.shape, limit);
    assert KeySeq([]) == [];
    if limit == null {
      n := First(t);
    } else {
      n := limit;
      t.Lock(n, null);
    }
  }

  ghost function Ahead(keys: set<Key>, done: seq<Key>): set<Key> {
    set k | k in keys && k !in done
  }

  lemma Recorded(keys: set<Key>, visited: seq<Node>, n: Node, next: Option<Key>)
    requires Walked(keys, KeySeq(visited), Some(n.key)) && Follows(keys, n.key, next)
    ensures Walked(keys, KeySeq(visited + [n]), next)
    ensures Ahead(keys, KeySeq(visited + [n])) < Ahead(keys, KeySeq(visited))
  {
    hide Walked, Follows;
    WalkStep(keys, KeySeq(visited), n.key, next);
    assert KeySeq(visited + [n]) == KeySeq(visited) + [n.key];
    WalkMember(keys, KeySeq(visited), n.key);
    assert n.key in Ahead(keys, KeySeq(visited));
  }

  lemma WalkMember(keys: set<Key>, done: seq<Key>, k: Key)
    requires Walked(keys, done, Some(k))
    ensures k in keys
  {
  }

  // ---------- ms_get_tree ----------

  /** `ms_node_is_type`. */
  predicate IsType(e: Entry, types: set<Role>) {
    e.flags.Some? && e.flags.value.range * types != {}
  }

  lemma TypeMeans(e: Entry, types: set<Role>)
    ensures IsType(e, types) <==> e.flags.Some? && exists r :: r in types && r in e.flags.value.range
  {
    if e.flags.Some? {
      var both := e.flags.value.range * types;
      assert forall r :: r in both <==> r in types && r in e.flags.value.range;
      if both != {} {
        var r :| r in both;
      }
    }
  }

  /** The nodes of one of the types at or below `node`, in trie order. */
  ghost predicate Preorder(s: Links, node: Node?, types: set<Role>, ns: seq<Node>)
    reads s.Keys`entry
  {
    && (forall n | n in ns :: node != null && n in s && node.key <= n.key && IsType(n.entry, types))
    && (forall n | n in s && node != null && node.key <= n.key && IsType(n.entry, types) :: n in ns)
    && InOrder(ns)
  }

  ghost predicate InOrder(ns: seq<Node>) {
    forall i, j | 0 <= i < j < |ns| :: Before(ns[i].key, ns[j].key)
  }

  lemma InOrderUnique(a: seq<Node>, b: seq<Node>)
    requires InOrder(a) && InOrder(b) && (forall n | n in a :: n in b) && (forall n | n in b :: n in a)
    ensures |a| == |b| && forall i | 0 <= i < |a| :: a[i].key == b[i].key
  {
    hide Before;
    forall k ensures k in KeySeq(a) <==> k in KeySeq(b) {
      SameMembers(a, b, k);
      SameMembers(b, a, k);
    }
    AscendingUnique(KeySeq(a), KeySeq(b));
    assert forall i | 0 <= i < |a| :: a[i].key == KeySeq(a)[i];
  }

  lemma InOrderJoin(a: seq<Node>, b: seq<Node>)
    requires InOrder(a) && InOrder(b) && forall x, y | x in a && y in b :: Before(x.key, y.key)
    ensures InOrder(a + b)
  {
    hide Before;
  }

  lemma JoinOrder(s: Links, node: Node, types: set<Role>, own: seq<Node>, l: seq<Node>, r: seq<Node>)
    requires Linked(s) && node in s && |own| <= 1 && forall n | n in own :: n == node
    requires Preorder(s, s[node].left, types, l) && Preorder(s, s[node].right, types, r)
    ensures InOrder(own + l + r)
  {
    hide Before, IsType;
    assert ChildLinked(s, node, false) && ChildLinked(s, node, true);
    forall x, y | x in l && y in r ensures Before(x.key, y.key) {
      PartBefore(node.key, x.key, y.key);
    }
    forall y | y in l + r ensures Before(node.key, y.key) {
      PrefixBefore(node.key, y.key);
    }
    InOrderJoin(l, r);
    InOrderJoin(own, l + r);
    assert own + (l + r) == own + l + r;
  }

  lemma PreorderJoin(s: Links, node: Node, types: set<Role>, own: seq<Node>, l: seq<Node>, r: seq<Node>)
    requires Linked(s) && Routed(s) && UniqueKeys(s) && node in s
    requires own == if IsType(node.entry, types) then [node] else []
    requires Preorder(s, s[node].left, types, l) && Preorder(s, s[node].right, types, r)
    ensures Preorder(s, node, types, own + l + r)
  {
    hide Before, UniqueKeys, Routed, InOrder, IsType;
    JoinOrder(s, node, types, own, l, r);
    assert ChildLinked(s, node, false) && ChildLinked(s, node, true);
    forall n | n in s && node.key <= n.key && IsType(n.entry, types) ensures n in own + l + r {
      AtOrBelow(s, node, n);
    }
  }

  lemma AtOrBelow(s: Links, node: Node, n: Node)
    requires Linked(s) && Routed(s) && UniqueKeys(s) && node in s && n in s && node.key <= n.key
    ensures n == node || (s[node].left != null && s[node].left.key <= n.key)
                      || (s[node].right != null && s[node].right.key <= n.key)
  {
    assert RoutedPair(s, node, n);
  }

  /** `ms_get_tree`: appends every node of one of the types at or below `node` to the list. */
  method GetTree(t: Table, node: Node?, types: set<Role>, rt: seq<Node>) returns (r: seq<Node>)
    requires t.Valid() && (node != null ==> node in t.shape)
    ensures rt <= r && Preorder(t.shape, node, types, r[|rt|..])
    decreases if node == null then 0 else 130 - |node.key|
  {
    hide Trie, Size, ConsistentBut, Holds, Linked, Routed, UniqueKeys, Preorder, KeyOf, KeysOf;
    if node == null {
      r := rt;
      EmptyPreorder(t.shape, types, r[|rt|..]);
      return;
    }
    TrieParts(t.top, t.shape, t.family);
    ghost var own := if IsType(node.entry, types) then [node] else [];
    var a := if IsType(node.entry, types) then rt + [node] else rt;
    ChildDeeper(t.shape, node);
    assert |node.key| <= 128;
    var b := GetTree(t, node.links.left, types, a);
    r := GetTree(t, node.links.right, types, b);
    PreorderJoin(t.shape, node, types, own, b[|a|..], r[|b|..]);
    assert r[|rt|..] == own + b[|a|..] + r[|b|..];
  }

  lemma EmptyPreorder(s: Links, types: set<Role>, ns: seq<Node>)
    requires ns == []
    ensures Preorder(s, null, types, ns)
  {
  }

  lemma ChildDeeper(s: Links, n: Node)
    requires Linked(s) && n in s
    ensures s[n].left != null ==> s[n].left in s && |n.key| < |s[n].left.key|
    ensures s[n].right != null ==> s[n].right in s && |n.key| < |s[n].right.key|
  {
    assert ChildLinked(s, n, false) && ChildLinked(s, n, true);
  }

  ghost function Filtered(ns: seq<Node>, types: set<Role>): (r: seq<Node>)
    reads ns
  {
    if ns == [] then []
    else (if IsType(ns[0].entry, types) then [ns[0]] else []) + Filtered(ns[1..], types)
  }

  lemma {:induction false} FilteredInOrder(ns: seq<Node>, types: set<Role>)
    requires InOrder(ns)
    ensures InOrder(Filtered(ns, types))
    ensures forall n | n in Filtered(ns, types) :: n in ns && IsType(n.entry, types)
    ensures forall n | n in ns && IsType(n.entry, types) :: n in Filtered(ns, types)
  {
    hide Before, IsType;
    if ns != [] {
      FilteredInOrder(ns[1..], types);
      assert forall n | n in ns[1..] :: Before(ns[0].key, n.key);
      assert forall n | n in ns :: n == ns[0] || n in ns[1..];
    }
  }

  /** The recursion and the iteration list the same nodes in the same order: `ms_get_tree` is
      the walk by `db_route_next_until`, filtered by type. */
  lemma TreeIsWalk(s: Links, limit: Node, types: set<Role>, walk: seq<Node>, tree: seq<Node>)
    requires UniqueKeys(s) && limit in s
    requires Ascending(KeySeq(walk)) && forall n | n in walk :: n in s
    requires forall k :: k in KeySeq(walk) <==> k in Within(s, limit.key)
    requires Preorder(s, limit, types, tree)
    ensures tree == Filtered(walk, types)
  {
    hide Before, IsType;
    var f := Filtered(walk, types);
    assert InOrder(walk) by {
      forall i, j | 0 <= i < j < |walk| ensures Before(walk[i].key, walk[j].key) {
        assert Before(KeySeq(walk)[i], KeySeq(walk)[j]);
      }
    }
    FilteredInOrder(walk, types);
    WalkMembers(s, limit, walk);
    InOrderUnique(tree, f);
    forall i | 0 <= i < |tree| ensures tree[i] == f[i] {
      assert tree[i] in tree && f[i] in f;
    }
  }

  lemma WalkMembers(s: Links, limit: Node, walk: seq<Node>)
    requires UniqueKeys(s) && (forall n | n in walk :: n in s)
    requires forall k :: k in KeySeq(walk) <==> k in Within(s, limit.key)
    ensures forall n | n in s && limit.key <= n.key :: n in walk
    ensures forall n | n in walk :: limit.key <= n.key
  {
    forall n | n in s && limit.key <= n.key ensures n in walk {
      assert n.key in KeySeq(walk);
      var i :| 0 <= i < |walk| && KeySeq(walk)[i] == n.key;
      assert walk[i] in walk;
    }
    forall n | n in walk ensures limit.key <= n.key {
      var i :| 0 <= i < |walk| && walk[i] == n;
      assert KeySeq(walk)[i] in KeySeq(walk);
    }
  }

  lemma SameMembers(a: seq<Node>, b: seq<Node>, k: Key)
    requires forall n | n in a :: n in b
    ensures k in KeySeq(a) ==> k in KeySeq(b)
  {
    if k in KeySeq(a) {
      var i :| 0 <= i < |a| && a[i].key == k;
      assert a[i] in b;
      var j :| 0 <= j < |b| && b[j] == a[i];
      assert KeySeq(b)[j] == k;
    }
  }

  // ---------- db_table_free ----------

  /** No node still there lies below one that has been freed. */
  ghost predicate FreedFirst(s: Links, freed: seq<Node>) {
    && (forall i, j | 0 <= i < j < |freed| :: freed[i] != freed[j] && !(freed[i].key < freed[j].key))
    && (forall n, m | n in freed && m in s :: n != m && !(n.key < m.key))
  }

  lemma FreeLeaf(s: Links, t: Links, freed: seq<Node>, n: Node)
    requires Routed(s) && n in s && s[n].left == null && s[n].right == null && FreedFirst(s, freed)
    requires forall m | m in t :: m in s && m != n
    ensures FreedFirst(t, freed + [n])
  {
    forall m | m in t ensures !(n.key < m.key) {
      assert RoutedPair(s, n, m);
    }
  }

  method FreeNode(t: Table, node: Node, ghost freed: seq<Node>) returns (parent: Node?)
    requires t.Structured() && node in t.shape && node.links.left == null && node.links.right == null
    requires FreedFirst(t.shape, freed)
    modifies t`top, t`count, t`shape, t.shape.Keys`links
    ensures t.Structured() && FreedFirst(t.shape, freed + [node]) && t.count < old(t.count)
    ensures forall n | n in t.shape :: n in old(t.shape)
    ensures forall n | n in old(t.shape) && n != node :: n in t.shape
    ensures if parent == null then t.top == null else parent in t.shape
  {
    hide Trie, Size, FreedFirst, Removable, Spliced, Rooted, Linked, Routed, UniqueKeys, KeyOf;
    ghost var s := t.shape;
    TrieParts(t.top, s, t.family);
    parent := node.links.parent;
    if parent != null {
      ParentOther(s, node);
    }
    t.TakeOut(node);
    FreeLeaf(s, t.shape, freed, node);
  }

  lemma ParentOther(s: Links, n: Node)
    requires Linked(s) && n in s && s[n].parent != null
    ensures s[n].parent in s && s[n].parent != n
  {
    assert ParentLinked(s, n);
    assert ChildLinked(s, s[n].parent, false) && ChildLinked(s, s[n].parent, true);
  }

  lemma FreeStarts(s: Links)
    ensures FreedFirst(s, [])
  {
  }

  lemma FreeEnds(top: Node?, s: Links, family: Family)
    requires Trie(top, s, family) && top == null
    ensures s == map[]
  {
  }

  /** Every node is either freed or still there, and nothing else is freed. */
  ghost predicate Shared(all: set<Node>, freed: seq<Node>, s: Links) {
    && (forall n | n in freed :: n in all) && (forall n | n in s :: n in all)
    && (forall n | n in all :: n in freed || n in s)
  }

  lemma SharedStep(all: set<Node>, freed: seq<Node>, s: Links, t: Links, n: Node)
    requires Shared(all, freed, s) && n in s
    requires (forall m | m in t :: m in s) && (forall m | m in s && m != n :: m in t)
    ensures Shared(all, freed + [n], t)
  {
  }

  lemma SharedStarts(s: Links)
    ensures Shared(s.Keys, [], s)
  {
  }

  lemma SharedEnds(all: set<Node>, freed: seq<Node>)
    requires Shared(all, freed, map[])
    ensures (forall n | n in freed :: n in all) && (forall n | n in all :: n in freed)
  {
  }

  lemma SharedInside(all: set<Node>, freed: seq<Node>, s: Links)
    requires Shared(all, freed, s)
    ensures s.Keys <= all
  {
  }

  /** `db_table_free`: frees every node once, and no node before those below it. */
  method Free(t: Table) returns (freed: seq<Node>)
    requires t.Valid()
    modifies t`top, t`count, t`shape, t.shape.Keys`links
    ensures FreedFirst(map[], freed)
    ensures (forall n | n in freed :: n in old(t.shape)) && (forall n | n in old(t.shape) :: n in freed)
  {
    hide Trie, Size, Consistent, FreedFirst, Rooted, Linked, Routed, UniqueKeys, KeyOf, Shared, Holds;
    freed := [];
    ghost var all := t.shape.Keys;
    var node := t.top;
    TrieParts(t.top, t.shape, t.family);
    FreeStarts(t.shape);
    SharedStarts(t.shape);
    while node != null
      invariant t.Structured() && (if node == null then t.top == null else node in t.shape)
      invariant FreedFirst(t.shape, freed) && Shared(all, freed, t.shape)
      decreases t.count, if node == null then 0 else 130 - |node.key|
    {
      TrieParts(t.top, t.shape, t.family);
      SharedInside(all, freed, t.shape);
      ChildDeeper(t.shape, node);
      assert |node.key| <= 128;
      if node.links.left != null {
        node := node.links.left;
      } else if node.links.right != null {
        node := node.links.right;
      } else {
        ghost var s := t.shape;
        var parent := FreeNode(t, node, freed);
        SharedStep(all, freed, s, t.shape, node);
        freed := freed + [node];
        node := parent;
      }
    }
    FreeEnds(t.top, t.shape, t.family);
    SharedEnds(all, freed);
  }
}
