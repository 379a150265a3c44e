/** The nodes of the trie of db_table.c, and the pointer structure of a whole trie as a value:
    a snapshot of the links of every node. The heap code takes the snapshot before and after
    each update; here it is proved that the updates keep the structure. */
module Shapes {
  import opened Types
  import opened Bits
  import opened Prefixes
  import opened Views

  /** `struct db_node`. */
  class Node {
    const p: Prefix
    ghost const key: Key
    var links: Cell
    var entry: Entry

    /** `db_node_create`, then the prefix; everything else is zeroed. */
    constructor (p: Prefix)
      ensures this.p == p && key == KeyOf(p)
      ensures links == Cell(null, null, null)
      ensures entry == Entry(0, None, None)
    {
      this.p, key := p, KeyOf(p);
      links := Cell(null, null, null);
      entry := Entry(0, None, None);
    }
  }

  /** The pointers of a node: `parent`, `link[0]` and `link[1]`. */
  datatype Cell = Cell(parent: Node?, left: Node?, right: Node?) {
    function Link(bit: bool): Node? {
      if bit then right else left
    }

    function WithLink(bit: bool, c: Node?): Cell {
      if bit then this.(right := c) else this.(left := c)
    }
  }

  type Links = map<Node, Cell>

  ghost function Size(s: Links): nat {
    |s|
  }

  /** The heap holds exactly these links. */
  ghost predicate Stored(s: Links)
    reads s.Keys`links
  {
    forall n | n in s :: n.links == s[n]
  }

  /** The entries of the nodes are the ones the view gives for their keys. */
  ghost predicate Holds(s: Links, v: View)
    reads s.Keys`entry
  {
    forall n | n in s :: n.key in v && n.entry == v[n.key]
  }

  /** `child` lies strictly below `key`, on the side of `bit`. */
  ghost predicate Extends(key: Key, bit: bool, child: Key) {
    |key| < |child| && key <= child && child[|key|] == bit
  }

  /** A child is strictly longer, on the side of its bit, and points back to its parent. */
  ghost predicate ChildLinked(s: Links, n: Node, bit: bool)
    requires n in s
  {
    var c := s[n].Link(bit);
    c != null ==> c in s && s[c].parent == n && Extends(n.key, bit, c.key)
  }

  ghost predicate ParentLinked(s: Links, n: Node)
    requires n in s
  {
    var p := s[n].parent;
    p != null ==> p in s && (s[p].left == n || s[p].right == n)
  }

  /** Links and parents are inverse. */
  ghost predicate Linked(s: Links) {
    forall n | n in s :: ChildLinked(s, n, false) && ChildLinked(s, n, true) && ParentLinked(s, n)
  }

  /** Everything stored strictly below x is reached through the link on its side. */
  ghost predicate RoutedPair(s: Links, x: Node, m: Node)
    requires x in s
  {
    |x.key| < |m.key| && x.key <= m.key ==>
      var c := s[x].Link(m.key[|x.key|]);
      c != null && c.key <= m.key
  }

  ghost predicate Routed(s: Links) {
    forall x, m | x in s && m in s :: RoutedPair(s, x, m)
  }

  /** The top covers every node and is the only one without a parent. */
  ghost predicate Rooted(top: Node?, s: Links) {
    && (top == null ==> s == map[])
    && (top != null ==> top in s)
    && (forall n | n in s :: top != null && top.key <= n.key && (s[n].parent == null <==> n == top))
  }

  ghost predicate UniqueKeys(s: Links) {
    forall x, m | x in s && m in s && x.key == m.key :: x == m
  }

  ghost predicate Labelled(n: Node, family: Family) {
    n.key == KeyOf(n.p) && n.p.family == family
  }

  /** A well-formed trie of prefixes of one family. */
  ghost predicate Trie(top: Node?, s: Links, family: Family) {
    Shape(top, s) && forall n | n in s :: Labelled(n, family)
  }

  ghost predicate Shape(top: Node?, s: Links) {
    Rooted(top, s) && Linked(s) && UniqueKeys(s) && Routed(s)
  }

  /** Where the descent for `key` stops: `node` is the link of `above` on the side of the key. */
  ghost predicate Slot(top: Node?, s: Links, key: Key, above: Node?, node: Node?) {
    if above == null then node == top
    else above in s && |above.key| < |key| && above.key <= key && node == s[above].Link(key[|above.key|])
  }

  /** No stored prefix of the key hides below a slot whose node does not cover the key. */
  lemma AboveSlot(top: Node?, s: Links, key: Key, above: Node?, node: Node?, x: Node)
    requires Rooted(top, s) && Routed(s) && Slot(top, s, key, above, node)
    requires node == null || !(node.key <= key)
    requires x in s && x.key <= key
    ensures above != null && x.key <= above.key
  {
    if above != null {
      assert RoutedPair(s, above, x);
    }
  }

  /** A stored node covered by the key would sit below the slot. */
  lemma BelowSlot(top: Node?, s: Links, key: Key, above: Node?, node: Node?, x: Node)
    requires Rooted(top, s) && Routed(s) && Slot(top, s, key, above, node)
    requires x in s && key <= x.key
    ensures node != null && node.key <= x.key
  {
    if above != null {
      assert RoutedPair(s, above, x);
    }
  }

  ghost function WithChild(s: Links, above: Node?, key: Key, c: Node?): Links
    requires above != null ==> above in s && |above.key| < |key|
  {
    if above == null then s else s[above := s[above].WithLink(key[|above.key|], c)]
  }

  /** Both links of a node are in use. */
  ghost predicate Branches(s: Links, n: Node)
    requires n in s
  {
    s[n].left != null && s[n].right != null
  }

  // ---------- a leaf in an empty slot ----------

  ghost function AddLeaf(s: Links, above: Node?, leaf: Node): Links
    requires above != null ==> above in s && |above.key| < |leaf.key|
  {
    WithChild(s, above, leaf.key, leaf)[leaf := Cell(above, null, null)]
  }

  lemma LeafLinked(top: Node?, s: Links, above: Node?, leaf: Node)
    requires Linked(s) && Slot(top, s, leaf.key, above, null) && leaf !in s
    ensures Linked(AddLeaf(s, above, leaf))
  {
    var t := AddLeaf(s, above, leaf);
    forall n | n in t ensures ChildLinked(t, n, false) && ChildLinked(t, n, true) && ParentLinked(t, n) {
      if n in s {
        assert ChildLinked(s, n, false) && ChildLinked(s, n, true) && ParentLinked(s, n);
      }
    }
  }

  lemma LeafRouted(top: Node?, s: Links, above: Node?, leaf: Node)
    requires Rooted(top, s) && UniqueKeys(s) && Routed(s)
    requires Slot(top, s, leaf.key, above, null) && leaf !in s
    ensures Routed(AddLeaf(s, above, leaf))
  {
    var t := AddLeaf(s, above, leaf);
    forall x, m | x in t && m in t ensures RoutedPair(t, x, m) {
      if x in s && m in s {
        assert RoutedPair(s, x, m);
      } else if x in s {
        LeafReached(top, s, above, leaf, x);
      } else if m in s && leaf.key <= m.key {
        BelowSlot(top, s, leaf.key, above, null, m);
      }
    }
  }

  lemma LeafReached(top: Node?, s: Links, above: Node?, leaf: Node, x: Node)
    requires Rooted(top, s) && UniqueKeys(s) && Routed(s)
    requires Slot(top, s, leaf.key, above, null) && leaf !in s && x in s
    ensures RoutedPair(AddLeaf(s, above, leaf), x, leaf)
  {
    if x.key <= leaf.key && x != above {
      AboveSlot(top, s, leaf.key, above, null, x);
      assert RoutedPair(s, x, above);
    }
  }

  /** Hanging a leaf into an empty slot. */
  lemma AttachLeaf(top: Node?, s: Links, above: Node?, leaf: Node)
    requires Shape(top, s) && Slot(top, s, leaf.key, above, null) && leaf !in s
    ensures Shape(if above == null then leaf else top, AddLeaf(s, above, leaf))
  {
    var t := AddLeaf(s, above, leaf);
    LeafLinked(top, s, above, leaf);
    LeafRouted(top, s, above, leaf);
    forall x | x in s ensures x.key != leaf.key {
      if x.key == leaf.key {
        BelowSlot(top, s, leaf.key, above, null, x);
      }
    }
    assert UniqueKeys(t);
    if above != null {
      assert top.key <= above.key;
    }
    assert Rooted(if above == null then leaf else top, t);
  }

  lemma LeafTrie(top: Node?, s: Links, above: Node?, leaf: Node, family: Family)
    requires Trie(top, s, family) && Slot(top, s, leaf.key, above, null)
    requires leaf !in s && Labelled(leaf, family)
    ensures above != null ==> above in s && |above.key| < |leaf.key|
    ensures Trie(if above == null then leaf else top, AddLeaf(s, above, leaf), family)
    ensures UniqueKeys(AddLeaf(s, above, leaf))
  {
    AttachLeaf(top, s, above, leaf);
    LeafCounted(s, above, leaf);
    assert UniqueKeys(AddLeaf(s, above, leaf));
    hide Shape, AddLeaf, Labelled;
  }

  lemma LeafCounted(s: Links, above: Node?, leaf: Node)
    requires leaf !in s && (above != null ==> above in s && |above.key| < |leaf.key|)
    ensures Size(AddLeaf(s, above, leaf)) == Size(s) + 1
    ensures AddLeaf(s, above, leaf).Keys == s.Keys + {leaf}
    ensures forall n | n in AddLeaf(s, above, leaf) && n != leaf :: n in s
  {
    assert AddLeaf(s, above, leaf).Keys == s.Keys + {leaf};
  }

  lemma LeafBranches(s: Links, above: Node?, leaf: Node)
    requires leaf !in s && (above != null ==> above in s && |above.key| < |leaf.key|)
    ensures forall m | m in s && Branches(s, m) :: Branches(AddLeaf(s, above, leaf), m)
    ensures above != null && s[above].Link(!leaf.key[|above.key|]) != null ==> Branches(AddLeaf(s, above, leaf), above)
  {
  }

  // ---------- a branching node in an occupied slot ----------

  ghost function AddBranch(s: Links, above: Node?, node: Node, branch: Node): Links
    requires above != null ==> above in s && |above.key| < |branch.key|
    requires node in s && |branch.key| < |node.key|
  {
    var t := WithChild(s, above, branch.key, branch);
    t[branch := Cell(above, null, null).WithLink(node.key[|branch.key|], node)]
     [node := s[node].(parent := branch)]
  }

  /** `branch` fits between a slot's two ends. */
  ghost predicate Between(top: Node?, s: Links, above: Node?, node: Node, branch: Node) {
    && Slot(top, s, branch.key, above, node)
    && node in s && branch !in s
    && |branch.key| < |node.key| && branch.key <= node.key
  }

  lemma BranchChild(top: Node?, s: Links, above: Node?, node: Node, branch: Node, n: Node, bit: bool)
    requires Linked(s) && Between(top, s, above, node, branch)
    requires above == null ==> s[node].parent == null
    requires n in s || n == branch
    ensures ChildLinked(AddBranch(s, above, node, branch), n, bit)
  {
    if n in s {
      assert ChildLinked(s, n, bit);
      if above != null {
        assert ChildLinked(s, above, branch.key[|above.key|]);
      }
    }
  }

  lemma BranchParent(top: Node?, s: Links, above: Node?, node: Node, branch: Node, n: Node)
    requires Linked(s) && Between(top, s, above, node, branch)
    requires n in s || n == branch
    ensures ParentLinked(AddBranch(s, above, node, branch), n)
  {
    if n in s {
      assert ParentLinked(s, n);
      if above != null {
        assert ChildLinked(s, above, branch.key[|above.key|]);
      }
    }
  }

  lemma BranchRouted(top: Node?, s: Links, above: Node?, node: Node, branch: Node)
    requires Rooted(top, s) && UniqueKeys(s) && Routed(s) && Between(top, s, above, node, branch)
    requires above != node
    ensures Routed(AddBranch(s, above, node, branch))
  {
    var t := AddBranch(s, above, node, branch);
    forall x, m | x in t && m in t ensures RoutedPair(t, x, m) {
      if x in s && m in s {
        assert RoutedPair(s, x, m);
      } else if x in s {
        BranchReached(top, s, above, node, branch, x);
      } else if m in s && branch.key <= m.key {
        BelowSlot(top, s, branch.key, above, node, m);
      }
    }
  }

  lemma BranchReached(top: Node?, s: Links, above: Node?, node: Node, branch: Node, x: Node)
    requires Rooted(top, s) && UniqueKeys(s) && Routed(s) && Between(top, s, above, node, branch)
    requires above != node && x in s
    ensures RoutedPair(AddBranch(s, above, node, branch), x, branch)
  {
    if x.key <= branch.key && x != above {
      AboveSlot(top, s, branch.key, above, node, x);
      assert RoutedPair(s, x, above);
    }
  }

  lemma BranchUnique(top: Node?, s: Links, above: Node?, node: Node, branch: Node)
    requires Rooted(top, s) && UniqueKeys(s) && Routed(s) && Between(top, s, above, node, branch)
    ensures UniqueKeys(AddBranch(s, above, node, branch))
  {
    forall x | x in s ensures x.key != branch.key {
      if x.key == branch.key {
        BelowSlot(top, s, branch.key, above, node, x);
      }
    }
  }

  lemma BranchRooted(top: Node?, s: Links, above: Node?, node: Node, branch: Node)
    requires Rooted(top, s) && Between(top, s, above, node, branch)
    ensures Rooted(if above == null then branch else top, AddBranch(s, above, node, branch))
  {
    if above != null {
      assert top.key <= above.key;
    }
  }

  /** Splitting an edge. */
  lemma AttachBranch(top: Node?, s: Links, above: Node?, node: Node, branch: Node)
    requires Shape(top, s) && Between(top, s, above, node, branch)
    ensures Shape(if above == null then branch else top, AddBranch(s, above, node, branch))
  {
    var t := AddBranch(s, above, node, branch);
    assert above != node by {
      if above != null {
        assert ChildLinked(s, above, branch.key[|above.key|]);
      }
    }
    assert Linked(t) by {
      forall n | n in t ensures ChildLinked(t, n, false) && ChildLinked(t, n, true) && ParentLinked(t, n) {
        BranchChild(top, s, above, node, branch, n, false);
        BranchChild(top, s, above, node, branch, n, true);
        BranchParent(top, s, above, node, branch, n);
      }
    }
    BranchRouted(top, s, above, node, branch);
    BranchUnique(top, s, above, node, branch);
    BranchRooted(top, s, above, node, branch);
  }

  lemma BranchCounted(s: Links, above: Node?, node: Node, branch: Node)
    requires above != null ==> above in s && |above.key| < |branch.key|
    requires node in s && |branch.key| < |node.key| && branch !in s
    ensures Size(AddBranch(s, above, node, branch)) == Size(s) + 1
    ensures AddBranch(s, above, node, branch).Keys == s.Keys + {branch}
    ensures forall n | n in AddBranch(s, above, node, branch) && n != branch :: n in s
  {
    assert AddBranch(s, above, node, branch).Keys == s.Keys + {branch};
  }

  lemma BranchTrie(top: Node?, s: Links, above: Node?, node: Node, branch: Node, family: Family)
    requires Trie(top, s, family) && Between(top, s, above, node, branch) && Labelled(branch, family)
    ensures above != null ==> above in s && |above.key| < |branch.key|
    ensures node in s && branch !in s && |branch.key| < |node.key|
    ensures Trie(if above == null then branch else top, AddBranch(s, above, node, branch), family)
    ensures UniqueKeys(AddBranch(s, above, node, branch))
  {
    AttachBranch(top, s, above, node, branch);
    BranchCounted(s, above, node, branch);
    assert UniqueKeys(AddBranch(s, above, node, branch));
    hide Shape, AddBranch, Labelled;
  }

  lemma BranchBranches(s: Links, above: Node?, node: Node, branch: Node)
    requires above != null ==> above in s && |above.key| < |branch.key|
    requires node in s && |branch.key| < |node.key| && branch !in s
    ensures forall m | m in s && Branches(s, m) :: Branches(AddBranch(s, above, node, branch), m)
  {
  }

  /** A key that parts from the edge's node at the new branch has its empty slot there. */
  lemma BranchSlot(top: Node?, s: Links, above: Node?, node: Node, branch: Node, key: Key)
    requires Between(top, s, above, node, branch)
    requires |branch.key| < |key| && branch.key <= key && key[|branch.key|] != node.key[|branch.key|]
    ensures Slot(if above == null then branch else top, AddBranch(s, above, node, branch), key, branch, null)
    ensures AddBranch(s, above, node, branch)[branch].Link(!key[|branch.key|]) != null
  {
  }

  // ---------- taking out a node with at most one child ----------

  /** The only child of a node, as `db_node_delete` picks it. */
  ghost function OnlyChild(c: Cell): Node? {
    if c.left != null then c.left else c.right
  }

  ghost function Spliced(s: Links, n: Node): Links
    requires n in s
    requires s[n].parent != null ==> s[n].parent in s
  {
    var p, c := s[n].parent, OnlyChild(s[n]);
    var t := if c == null || c !in s then s else s[c := s[c].(parent := p)];
    var u := if p == null then t
             else if t[p].left == n then t[p := t[p].(left := c)] else t[p := t[p].(right := c)];
    u - {n}
  }

  /** A node of the trie with at most one child. */
  ghost predicate Removable(s: Links, n: Node) {
    && n in s && (s[n].left == null || s[n].right == null)
    && ChildLinked(s, n, false) && ChildLinked(s, n, true) && ParentLinked(s, n)
    && (s[n].parent != null ==> ChildLinked(s, s[n].parent, false) && ChildLinked(s, s[n].parent, true))
  }

  lemma SplicedChild(s: Links, n: Node, m: Node, bit: bool)
    requires Removable(s, n) && m in s && m != n && ChildLinked(s, m, bit)
    ensures ChildLinked(Spliced(s, n), m, bit)
  {
  }

  lemma SplicedParent(s: Links, n: Node, m: Node)
    requires Removable(s, n) && m in s && m != n && ParentLinked(s, m)
    ensures ParentLinked(Spliced(s, n), m)
  {
  }

  /** Whoever led to the node leads to its child, and all others where they did. */
  lemma SplicedLink(s: Links, n: Node, x: Node, bit: bool)
    requires Removable(s, n) && x in s && x != n && ChildLinked(s, x, bit)
    ensures x in Spliced(s, n)
    ensures Spliced(s, n)[x].Link(bit) == if s[x].Link(bit) == n then OnlyChild(s[n]) else s[x].Link(bit)
  {
  }

  lemma SplicedPair(s: Links, n: Node, x: Node, m: Node)
    requires Removable(s, n) && x in s && m in s && x != n && m != n && RoutedPair(s, x, m) && RoutedPair(s, n, m)
    requires ChildLinked(s, x, false) && ChildLinked(s, x, true) && n.key != m.key
    ensures x in Spliced(s, n) && m in Spliced(s, n) && RoutedPair(Spliced(s, n), x, m)
  {
    hide Spliced;
    SplicedLink(s, n, x, false);
    SplicedLink(s, n, x, true);
    SplicedTop(s, n, m);
  }

  lemma SplicedRouted(s: Links, n: Node)
    requires UniqueKeys(s) && Routed(s) && Removable(s, n) && Linked(s)
    ensures Routed(Spliced(s, n))
  {
    hide Spliced, RoutedPair, ChildLinked;
    SplicedKeys(s, n);
    forall x, m | x in Spliced(s, n) && m in Spliced(s, n) ensures RoutedPair(Spliced(s, n), x, m) {
      assert RoutedPair(s, x, m) && RoutedPair(s, n, m);
      assert ChildLinked(s, x, false) && ChildLinked(s, x, true);
      SplicedPair(s, n, x, m);
    }
  }

  lemma SplicedKeys(s: Links, n: Node)
    requires Removable(s, n)
    ensures forall m :: m in Spliced(s, n) <==> m in s && m != n
  {
  }

  /** Who has no parent after the splice: whoever had none before, and the child of the old top. */
  lemma SplicedTop(s: Links, n: Node, m: Node)
    requires Removable(s, n) && m in s && m != n
    ensures m in Spliced(s, n)
    ensures Spliced(s, n)[m].parent == null <==>
      if m == OnlyChild(s[n]) then s[n].parent == null else s[m].parent == null
  {
  }

  lemma SplicedRooted(top: Node?, s: Links, n: Node)
    requires Rooted(top, s) && UniqueKeys(s) && Routed(s) && Removable(s, n)
    ensures Rooted(if s[n].parent == null then OnlyChild(s[n]) else top, Spliced(s, n))
  {
    hide Spliced, UniqueKeys, Routed, Size;
    SplicedCounted(s, n);
    if s[n].parent == null {
      BelowOldTop(top, s, n);
    }
    forall m | m in Spliced(s, n) {
      SplicedTop(s, n, m);
    }
  }

  lemma BelowOldTop(top: Node?, s: Links, n: Node)
    requires Rooted(top, s) && UniqueKeys(s) && Routed(s) && Removable(s, n) && s[n].parent == null
    ensures forall m | m in s && m != n :: OnlyChild(s[n]) != null && OnlyChild(s[n]).key <= m.key
  {
    forall m | m in s && m != n ensures OnlyChild(s[n]) != null && OnlyChild(s[n]).key <= m.key {
      assert RoutedPair(s, n, m) && m.key[..|m.key|] == m.key;
    }
  }

  lemma SplicedLinked(s: Links, n: Node)
    requires Linked(s) && Removable(s, n)
    ensures Linked(Spliced(s, n))
  {
    forall m | m in Spliced(s, n)
      ensures ChildLinked(Spliced(s, n), m, false) && ChildLinked(Spliced(s, n), m, true)
      ensures ParentLinked(Spliced(s, n), m)
    {
      SplicedChild(s, n, m, false);
      SplicedChild(s, n, m, true);
      SplicedParent(s, n, m);
    }
  }

  lemma SplicedUnique(s: Links, n: Node)
    requires UniqueKeys(s) && Removable(s, n)
    ensures UniqueKeys(Spliced(s, n))
  {
  }

  lemma CanRemove(s: Links, n: Node)
    requires Linked(s) && n in s && (s[n].left == null || s[n].right == null)
    ensures Removable(s, n)
  {
    assert ParentLinked(s, n);
  }

  /** Taking a node out of its place, its child moving up. */
  lemma SpliceOut(top: Node?, s: Links, n: Node)
    requires Shape(top, s) && n in s && (s[n].left == null || s[n].right == null)
    ensures s[n].parent != null ==> s[n].parent in s
    ensures Shape(if s[n].parent == null then OnlyChild(s[n]) else top, Spliced(s, n))
  {
    CanRemove(s, n);
    SplicedLinked(s, n);
    SplicedRouted(s, n);
    SplicedRooted(top, s, n);
    SplicedUnique(s, n);
  }

  lemma SplicedCounted(s: Links, n: Node)
    requires Removable(s, n)
    ensures Spliced(s, n).Keys == s.Keys - {n} && Size(Spliced(s, n)) == Size(s) - 1
  {
    assert Spliced(s, n).Keys == s.Keys - {n};
  }

  lemma SplicedTrie(top: Node?, s: Links, n: Node, family: Family)
    requires Trie(top, s, family) && n in s && (s[n].left == null || s[n].right == null)
    ensures Removable(s, n)
    ensures Trie(if s[n].parent == null then OnlyChild(s[n]) else top, Spliced(s, n), family)
  {
    CanRemove(s, n);
    SpliceOut(top, s, n);
    SplicedCounted(s, n);
    hide Shape, Spliced, Labelled;
  }
}
