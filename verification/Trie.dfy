/** `struct db_table` and the operations of db_table.c. */
module Tries {
  import opened Types
  import opened Bits
  import opened Prefixes
  import opened Views
  import opened Shapes
  import opened Theory

  class Table {
    var top: Node?
    var count: nat
    const family: Family
    /** The pointer structure, as a value; its keys are the nodes of the table. */
    ghost var shape: Links

    /** How many nodes have been cut off without being counted (`_ms_clean_site_mapping`). */
    ghost var lost: nat

    /** The links form a trie of the table's family, and `count` is the number of its nodes and
        of those cut off. */
    ghost predicate Structured()
      reads this`top, this`count, this`shape, this`lost, shape.Keys`links
    {
      Stored(shape) && Trie(top, shape, family) && count == Size(shape) + lost
    }

    /** The contents: for every stored prefix the entry of its node. */
    ghost var view: View

    /** Well-formed, and every node without locks is a branching point that holds nothing. */
    ghost predicate Valid()
      reads this`top, this`count, this`shape, this`lost, this`view, shape.Keys`links, shape.Keys`entry
    {
      Structured() && Holds(shape, view) && Consistent(shape, view)
    }

    /** `db_table_init`. */
    constructor (family: Family)
      ensures Valid() && this.family == family && top == null && count == 0
      ensures shape == map[] && view == map[] && lost == 0
    {
      this.family := family;
      top, count, lost := null, 0, 0;
      shape, view := map[], map[];
    }

    // ---------- the three structural updates ----------

    /** `set_link(match, new)`, or the new top, for a leaf. */
    method SetLeaf(above: Node?, bit: bool, leaf: Node)
      requires Stored(shape) && leaf !in shape && leaf.links == Cell(null, null, null)
      requires above != null ==> above in shape && |above.key| < |leaf.key| && bit == leaf.key[|above.key|]
      modifies this`top, this`shape, (if above == null then {} else {above})`links, leaf`links
      ensures Stored(shape) && shape == AddLeaf(old(shape), above, leaf)
      ensures top == if above == null then leaf else old(top)
    {
      if above != null {
        above.links := above.links.WithLink(bit, leaf);
        leaf.links := leaf.links.(parent := above);
      } else {
        top := leaf;
      }
      shape := AddLeaf(shape, above, leaf);
    }

    method HangLeaf(above: Node?, leaf: Node)
      requires Structured() && leaf !in shape && Labelled(leaf, family) && leaf.links == Cell(null, null, null)
      requires above != null ==> Labelled(above, family)
      requires Slot(top, shape, leaf.key, above, null)
      modifies this`top, this`count, this`shape, leaf`links, (if above == null then {} else {above})`links
      ensures Structured() && shape == AddLeaf(old(shape), above, leaf)
      ensures top == if above == null then leaf else old(top)
    {
      hide Trie, AddLeaf, KeyOf, Size;
      LeafTrie(top, shape, above, leaf, family);
      LeafCounted(shape, above, leaf);
      var bit := false;
      if above != null {
        bit := CheckBit(leaf.p, above.p.len);
      }
      count := count + 1;
      SetLeaf(above, bit, leaf);
    }

    /** `set_link(new, node)`, then `set_link(match, new)` or the new top, for a branching node. */
    method SetBranch(above: Node?, bit: bool, node: Node, side: bool, branch: Node)
      requires Stored(shape) && node in shape && branch !in shape && branch.links == Cell(null, null, null)
      requires |branch.key| < |node.key| && side == node.key[|branch.key|] && above != node
      requires above != null ==> above in shape && |above.key| < |branch.key| && bit == branch.key[|above.key|]
      modifies this`top, this`shape, (if above == null then {} else {above})`links, node`links, branch`links
      ensures Stored(shape) && shape == AddBranch(old(shape), above, node, branch)
      ensures top == if above == null then branch else old(top)
    {
      branch.links := branch.links.WithLink(side, node);
      node.links := node.links.(parent := branch);
      if above != null {
        above.links := above.links.WithLink(bit, branch);
        branch.links := branch.links.(parent := above);
      } else {
        top := branch;
      }
      shape := AddBranch(shape, above, node, branch);
    }

    method SplitEdge(above: Node?, node: Node, branch: Node)
      requires Structured() && branch.links == Cell(null, null, null)
      requires Labelled(branch, family) && Labelled(node, family) && (above != null ==> Labelled(above, family))
      requires Between(top, shape, above, node, branch) && above != node
      modifies this`top, this`count, this`shape, branch`links, node`links
      modifies (if above == null then {} else {above})`links
      ensures Structured() && shape == AddBranch(old(shape), above, node, branch)
      ensures top == if above == null then branch else old(top)
    {
      hide Trie, AddBranch, KeyOf, Size;
      BranchTrie(top, shape, above, node, branch, family);
      BranchCounted(shape, above, node, branch);
      var side := CheckBit(node.p, branch.p.len);
      var bit := false;
      if above != null {
        bit := CheckBit(branch.p, above.p.len);
      }
      count := count + 1;
      SetBranch(above, bit, node, side, branch);
    }

    /** The pointer half of `db_node_delete`: the only child takes the node's place. */
    method Unlink(node: Node)
      requires Stored(shape) && Removable(shape, node)
      modifies this`top, this`shape, shape.Keys`links
      ensures Stored(shape) && shape == Spliced(old(shape), node)
      ensures top == if old(node.links.parent) == null then OnlyChild(old(node.links)) else old(top)
      ensures node.links == old(node.links)
    {
      var child := if node.links.left != null then node.links.left else node.links.right;
      var parent := node.links.parent;
      if child != null {
        child.links := child.links.(parent := parent);
      }
      if parent != null {
        if parent.links.left == node {
          parent.links := parent.links.(left := child);
        } else {
          parent.links := parent.links.(right := child);
        }
      } else {
        top := child;
      }
      shape := Spliced(shape, node);
    }

    method TakeOut(node: Node)
      requires Structured() && node in shape && (node.links.left == null || node.links.right == null)
      modifies this`top, this`count, this`shape, shape.Keys`links
      ensures Structured() && shape == Spliced(old(shape), node) && Removable(old(shape), node)
      ensures count == old(count) - 1
      ensures forall n | n in shape :: n in old(shape) && n != node
      ensures forall n | n in old(shape) && n != node :: n in shape
      ensures node.links == old(node.links)
      ensures top == if old(node.links.parent) == null then OnlyChild(old(node.links)) else old(top)
    {
      hide Trie, Spliced, Removable, Size;
      SplicedTrie(top, shape, node, family);
      SplicedCounted(shape, node);
      count := count - 1;
      Unlink(node);
    }
  
    // ---------- db_node_get ----------

    /** The walk of `db_node_get`: down the bits of p while the nodes cover it, stopping at the
        node of p itself, at a node that does not cover p, or at the end of the trie. */
    method Descend(p: Prefix) returns (above: Node?, node: Node?, found: bool)
      requires Structured()
      ensures Slot(top, shape, KeyOf(p), above, node)
      ensures above != null ==> above in shape && Labelled(above, family)
      ensures node != null ==> node in shape && Labelled(node, family)
      ensures found ==> node != null && node.key == KeyOf(p)
      ensures !found ==> node == null || !(node.key <= KeyOf(p))
    {
      above, node, found := null, top, false;
      while true
        invariant Slot(top, shape, KeyOf(p), above, node)
        invariant above != null ==> above in shape && Labelled(above, family)
        invariant node != null ==> node in shape && Labelled(node, family)
        decreases if node == null then 0 else 129 - |node.key|
      {
        if node == null || node.p.len > p.len {
          return;
        }
        var covers := PrefixMatch(node.p, p);
        if !covers {
          return;
        }
        if node.p.len == p.len {
          found := true;
          return;
        }
        above := node;
        var bit := CheckBit(p, above.p.len);
        assert ChildLinked(shape, above, bit);
        node := above.links.Link(bit);
      }
    }

    /** `db_node_set`. */
    method NewNode(p: Prefix) returns (node: Node)
      requires p.family == family
      ensures fresh(node) && node.links == Cell(null, null, null) && node.entry == STUB
      ensures node.key == KeyOf(p) && Labelled(node, family)
    {
      node := new Node(PrefixCopy(p));
    }

    /** A first entry for a node just linked in. */
    method Enter(ghost before: Links, node: Node, e: Entry)
      requires Structured() && Holds(before, view) && node.key !in view
      requires node in shape && forall n | n in shape && n != node :: n in before
      modifies this`view, node`entry
      ensures Structured() && Holds(shape, view) && view == old(view)[node.key := e] && node.entry == e
    {
      hide Trie, Size, Stored;
      node.entry := e;
      view := view[node.key := e];
    }

    /** A walk that ends at an empty slot: `db_node_set` and `set_link` add a leaf, which is then
        locked. `open` is the branching node whose empty side this is, if it was just made. */
    method GetLeaf(above: Node?, p: Prefix, ghost open: Node?) returns (leaf: Node)
      requires Structured() && Holds(shape, view) && ConsistentBut(shape, view, open)
      requires p.family == family && Slot(top, shape, KeyOf(p), above, null)
      requires above != null ==> above in shape && Labelled(above, family)
      requires open != null ==> open == above && |open.key| < p.len
      requires open != null ==> shape[open].Link(!KeyOf(p)[|open.key|]) != null
      modifies this`top, this`count, this`shape, this`view, (if above == null then {} else {above})`links
      ensures Valid() && fresh(leaf) && leaf.key == KeyOf(p) && leaf in shape
      ensures forall n | n in shape && n != leaf :: n in old(shape)
      ensures forall n | n in old(shape) :: n in shape
      ensures leaf.key !in old(view) && view == old(view)[leaf.key := Entry(1, None, None)]
    {
      hide KeyOf, Trie, Size, AddLeaf, Slot, UniqueKeys, Labelled, ConsistentBut, Branches, Holds;
      leaf := NewNode(p);
      LeafTrie(top, shape, above, leaf, family);
      LeafCounted(shape, above, leaf);
      LeafBranches(shape, above, leaf);
      LeafConsistent(shape, AddLeaf(shape, above, leaf), view, open, leaf);
      HangLeaf(above, leaf);
      Enter(old(shape), leaf, Entry(1, None, None));
    }

    method NewBranch(node: Node, p: Prefix) returns (branch: Node)
      requires Labelled(node, family) && p.family == family && !(node.key <= KeyOf(p))
      ensures fresh(branch) && branch.links == Cell(null, null, null) && branch.entry == STUB
      ensures branch.key == Lcp(node.key, KeyOf(p)) && Labelled(branch, family)
    {
      var common := RouteCommon(node.p, p);
      branch := new Node(common);
    }

    /** A walk stopped by a node that does not cover the prefix: `route_common` gives the
        branching node that goes above it. */
    method GetBranch(above: Node?, node: Node, p: Prefix) returns (branch: Node)
      requires Valid() && p.family == family
      requires Slot(top, shape, KeyOf(p), above, node) && node in shape && !(node.key <= KeyOf(p))
      requires Labelled(node, family) && (above != null ==> above in shape && Labelled(above, family))
      modifies this`top, this`count, this`shape, this`view, node`links, (if above == null then {} else {above})`links
      ensures Structured() && Holds(shape, view) && ConsistentBut(shape, view, branch)
      ensures fresh(branch) && branch in shape && Labelled(branch, family)
      ensures forall n | n in shape && n != branch :: n in old(shape)
      ensures forall n | n in old(shape) :: n in shape
      ensures branch.key == Lcp(node.key, KeyOf(p)) && branch.key !in old(view) && branch.entry == STUB
      ensures view == old(view)[branch.key := STUB]
      ensures OpenSide(top, shape, branch, KeyOf(p))
    {
      hide KeyOf, Trie, Size, AddBranch, Slot, UniqueKeys, Labelled, ConsistentBut, Branches, Holds, Between, OpenSide;
      branch := NewBranch(node, p);
      CommonFits(top, shape, family, KeyOf(p), above, node, branch);
      BranchTrie(top, shape, above, node, branch, family);
      BranchCounted(shape, above, node, branch);
      BranchBranches(shape, above, node, branch);
      BranchConsistent(shape, AddBranch(shape, above, node, branch), view, branch);
      BranchOpen(top, shape, above, node, branch, KeyOf(p));
      SplitEdge(above, node, branch);
      Enter(old(shape), branch, STUB);
    }

    /** `db_lock_node`. */
    method Lock(node: Node, ghost open: Node?)
      requires Structured() && Holds(shape, view) && ConsistentBut(shape, view, open)
      requires node in shape && (open == null || open == node)
      modifies this`view, node`entry
      ensures Valid() && node.key in old(view) && view == old(view)[node.key := Bumped(old(view), node.key)]
    {
      hide Trie, Size, ConsistentBut, Stored;
      TrieUnique(top, shape, family);
      LockConsistent(shape, view, open, node);
      assert node.entry == view[node.key];
      node.entry := node.entry.(lock := node.entry.lock + 1);
      view := view[node.key := node.entry];
    }

    /** The edge case of `db_node_get`: the branching node is the node of p, or gets it as its
        second child. */
    method GetEdge(above: Node?, node: Node, p: Prefix) returns (n: Node, ghost stub: Option<Key>)
      requires Valid() && p.family == family
      requires Slot(top, shape, KeyOf(p), above, node) && node in shape && !(node.key <= KeyOf(p))
      requires Labelled(node, family) && (above != null ==> above in shape && Labelled(above, family))
      modifies this`top, this`count, this`shape, this`view, node`links, (if above == null then {} else {above})`links
      ensures Valid() && n in shape && n.key == KeyOf(p)
      ensures GotWith(old(view), view, KeyOf(p), stub)
      ensures forall m | m in shape :: m in old(shape) || fresh(m)
      ensures forall m | m in old(shape) :: m in shape
    {
      hide KeyOf, Trie, Size, Slot, UniqueKeys, Labelled, ConsistentBut, Branches, Holds, OpenSide, Stored;
      var branch := GetBranch(above, node, p);
      BranchSide(top, shape, family, node.key, branch, p);
      if branch.p.len != p.len {
        stub := Some(branch.key);
        n := GetLeaf(branch, p, branch);
      } else {
        stub := None;
        n := branch;
        Lock(n, n);
      }
    }

    /** What Get does, up to the canonical form of the result. */
    method GetNode(p: Prefix) returns (n: Node, ghost stub: Option<Key>)
      requires Valid() && p.family == family
      modifies this`top, this`count, this`shape, this`view, shape.Keys
      ensures Valid() && n in shape && n.key == KeyOf(p)
      ensures GotWith(old(view), view, KeyOf(p), stub)
      ensures forall m | m in shape :: m in old(shape) || fresh(m)
      ensures forall m | m in old(shape) :: m in shape
    {
      hide KeyOf, Trie, Size, Slot, UniqueKeys, Labelled, ConsistentBut, Branches, Holds, OpenSide, Stored;
      stub := None;
      var above, node, found := Descend(p);
      if found {
        n := node;
        Lock(n, null);
      } else if node == null {
        n := GetLeaf(above, p, null);
      } else {
        n, stub := GetEdge(above, node, p);
      }
    }

    /** `db_node_get`: locks the node of p, storing it first if it is not there. */
    method Get(p: Prefix) returns (n: Node)
      requires Valid() && p.family == family
      modifies this`top, this`count, this`shape, this`view, shape.Keys
      ensures Valid() && n in shape && n.key == KeyOf(p)
      ensures view == AfterGet(old(view), KeyOf(p))
      ensures forall m | m in shape :: m in old(shape) || fresh(m)
      ensures forall m | m in old(shape) :: m in shape
    {
      hide KeyOf, Trie, Size, ConsistentBut, Holds, Stored, Canonical, AfterGet;
      ghost var stub;
      ConsistentCanonical(top, shape, family, view);
      n, stub := GetNode(p);
      ConsistentCanonical(top, shape, family, view);
      GetByCanonical(old(view), view, KeyOf(p), stub);
    }

    // ---------- db_unlock_node and db_node_delete ----------

    /** The view loses the entry of a node that has been taken out. */
    ghost method Forget(before: Links, node: Node)
      requires Structured() && Holds(before, view) && node in before && node.key in view && UniqueKeys(before)
      requires forall n | n in shape :: n in before && n != node
      modifies this`view
      ensures Structured() && Holds(shape, view) && view == old(view) - {node.key}
    {
      hide Trie, Size, Stored;
      view := view - {node.key};
    }

    /** The part of `db_node_delete` up to `db_node_free`. */
    method Drop(node: Node) returns (parent: Node?)
      requires Structured() && Holds(shape, view) && ConsistentBut(shape, view, node)
      requires node in shape && node.entry.lock == 0 && (node.links.left == null || node.links.right == null)
      modifies this`top, this`count, this`shape, this`view, shape.Keys`links
      ensures Structured() && Holds(shape, view) && ConsistentBut(shape, view, parent) && Pruned(old(view), view)
      ensures forall n | n in shape :: n in old(shape)
      ensures parent != null ==> parent in shape && |parent.key| < |node.key|
    {
      hide Trie, Size, ConsistentBut, Holds, Removable, Spliced, UniqueKeys, Labelled, Pruned;
      TrieUnique(top, shape, family);
      KeyStored(shape, view, node, node);
      parent := node.links.parent;
      TakeOut(node);
      RemoveConsistent(old(shape), view, node);
      Forget(old(shape), node);
      if parent != null {
        ParentStays(old(shape), node, parent);
      }
    }

    /** `db_node_delete`: a node without locks goes unless it branches, and then so does its
        parent, if that was a stub. */
    method Delete(node: Node)
      requires Structured() && Holds(shape, view) && ConsistentBut(shape, view, node)
      requires node in shape && node.entry.lock == 0
      modifies this`top, this`count, this`shape, this`view, shape.Keys`links
      ensures Valid() && Pruned(old(view), view)
      ensures forall n | n in shape :: n in old(shape)
      ensures old(Branches(shape, node)) ==>
        shape == old(shape) && view == old(view) && top == old(top) && count == old(count)
      decreases |node.key|
    {
      hide Trie, Size, ConsistentBut, Holds;
      if node.links.left != null && node.links.right != null {
        ClosedConsistent(shape, view, node);
        return;
      }
      var parent := Drop(node);
      if parent != null {
        KeyStored(shape, view, parent, parent);
        if parent.entry.lock == 0 {
          Delete(parent);
        } else {
          ClosedConsistent(shape, view, parent);
        }
      }
    }

    /** `db_unlock_node`. A release that is not the last one, or is of a branching node, only
        counts down. */
    method Unlock(node: Node)
      requires Valid() && node in shape && node.entry.lock > 0
      requires node.entry.lock == 1 ==> node.entry.info == None
      modifies this`top, this`count, this`shape, this`view, shape.Keys`links, node`entry
      ensures Valid() && node.key in old(view) && old(view)[node.key] == old(node.entry)
      ensures view == AfterUnlock(old(view), node.key)
      ensures forall n | n in shape :: n in old(shape)
      ensures forall n | n in old(shape) && n.key in view :: n in shape
      ensures old(node.entry.lock) > 1 || old(Branches(shape, node)) ==>
        && shape == old(shape) && top == old(top) && count == old(count)
        && view == old(view)[node.key := old(node.entry).(lock := old(node.entry).lock - 1)]
    {
      hide Trie, Size, ConsistentBut, Stored, Labelled, Branches, Canonical, AfterUnlock;
      TrieUnique(top, shape, family);
      ConsistentCanonical(top, shape, family, view);
      UnlockConsistent(shape, view, node);
      assert node.entry == view[node.key];
      node.entry := node.entry.(lock := node.entry.lock - 1);
      view := view[node.key := node.entry];
      if node.entry.lock == 0 {
        Delete(node);
      } else {
        ClosedConsistent(shape, view, node);
      }
      ConsistentCanonical(top, shape, family, view);
      UnlockByPruned(old(view), view, node.key);
      KeptNodes(old(shape), shape, view);
    }

    /** `db_node_set_info` on a locked node. */
    method SetInfo(node: Node, info: Option<Locs>) returns (was: Option<Locs>)
      requires Valid() && node in shape && node.entry.lock > 0
      modifies this`view, node`entry
      ensures Valid() && node.key in old(view) && view == old(view)[node.key := old(view)[node.key].(info := info)]
      ensures was == old(view)[node.key].info && node.entry == old(node.entry).(info := info)
    {
      hide Trie, Size, Stored;
      TrieUnique(top, shape, family);
      was := node.entry.info;
      node.entry := node.entry.(info := info);
      view := view[node.key := node.entry];
    }

    /** Writing the mapping flags of a locked node. */
    method SetFlags(node: Node, flags: Option<Flags>)
      requires Valid() && node in shape
      modifies this`view, node`entry
      ensures Valid() && node.key in old(view) && view == old(view)[node.key := old(view)[node.key].(flags := flags)]
      ensures node.entry == old(node.entry).(flags := flags)
    {
      hide Trie, Size, Stored;
      TrieUnique(top, shape, family);
      node.entry := node.entry.(flags := flags);
      view := view[node.key := node.entry];
    }
  }

  /** If the branching node is shorter than the key, the key's side of it is the empty one. */
  ghost predicate OpenSide(top: Node?, s: Links, branch: Node, key: Key) {
    |branch.key| < |key| ==>
      Slot(top, s, key, branch, null) && s[branch].Link(!key[|branch.key|]) != null
  }

  lemma BranchSide(top: Node?, s: Links, family: Family, key: Key, branch: Node, p: Prefix)
    requires Labelled(branch, family) && branch.key == Lcp(key, KeyOf(p))
    requires branch in s && OpenSide(top, s, branch, KeyOf(p))
    ensures branch.p.len == p.len ==> branch.key == KeyOf(p)
    ensures branch.p.len != p.len ==>
      && |branch.key| < p.len && Slot(top, s, KeyOf(p), branch, null)
      && s[branch].Link(!KeyOf(p)[|branch.key|]) != null
  {
  }

  lemma BranchOpen(top: Node?, s: Links, above: Node?, node: Node, branch: Node, key: Key)
    requires Between(top, s, above, node, branch) && branch.key == Lcp(node.key, key)
    ensures above != null ==> above in s && |above.key| < |branch.key|
    ensures OpenSide(if above == null then branch else top, AddBranch(s, above, node, branch), branch, key)
  {
    if |branch.key| < |key| {
      BranchSlot(top, s, above, node, branch, key);
    }
  }

  /** The common prefix of the key and the node that stopped its descent fits into the slot. */
  lemma CommonFits(top: Node?, s: Links, family: Family, key: Key, above: Node?, node: Node, branch: Node)
    requires Trie(top, s, family) && Slot(top, s, key, above, node) && node in s && branch !in s
    requires !(node.key <= key) && branch.key == Lcp(node.key, key)
    ensures Between(top, s, above, node, branch) && above != node
  {
    if above != null {
      assert ChildLinked(s, above, key[|above.key|]);
      LcpGreatest(above.key, node.key, key);
      if |branch.key| == |above.key| {
        assert false;
      }
    }
  }

  /** Entries without locks may go, nothing else changes. */
  ghost predicate Pruned(v: View, w: View) {
    && (forall k | k in w :: k in v && w[k] == v[k])
    && (forall k | k in v && v[k].lock > 0 :: k in w)
  }

  lemma KeyStored(s: Links, v: View, open: Node?, n: Node)
    requires Holds(s, v) && ConsistentBut(s, v, open) && n in s
    ensures n.key in v && n.entry == v[n.key] && (n.entry.lock == 0 ==> n.entry.info == None)
  {
  }

  /** An open node that is locked, or branches after all, is not open. */
  lemma ClosedConsistent(s: Links, v: View, open: Node)
    requires ConsistentBut(s, v, open) && open in s && (v[open.key].lock > 0 || Branches(s, open))
    ensures Consistent(s, v)
  {
  }

  lemma ParentStays(s: Links, n: Node, p: Node)
    requires Removable(s, n) && s[n].parent == p
    ensures p in Spliced(s, n) && |p.key| < |n.key|
  {
  }

  lemma SplicedBranches(s: Links, n: Node, m: Node)
    requires Removable(s, n) && m in s && m != n && m != s[n].parent
    ensures m in Spliced(s, n) && (Branches(s, m) ==> Branches(Spliced(s, n), m))
  {
  }

  lemma KeysWithout(s: Links, t: Links, n: Node)
    requires t.Keys == s.Keys - {n} && n in s && UniqueKeys(s)
    ensures KeysOf(t.Keys) == KeysOf(s.Keys) - {n.key}
  {
  }

  lemma RemoveConsistent(s: Links, v: View, n: Node)
    requires ConsistentBut(s, v, n) && Removable(s, n) && UniqueKeys(s)
    requires n.key in v && v[n.key].lock == 0
    ensures ConsistentBut(Spliced(s, n), v - {n.key}, s[n].parent)
    ensures Pruned(v, v - {n.key})
  {
    var t := Spliced(s, n);
    hide Spliced, Branches, KeysOf;
    SplicedCounted(s, n);
    KeysWithout(s, t, n);
    forall m | m in t && m != s[n].parent ensures Branches(s, m) ==> Branches(t, m) {
      SplicedBranches(s, n, m);
    }
  }

  lemma UnlockConsistent(s: Links, v: View, n: Node)
    requires Consistent(s, v) && UniqueKeys(s) && n in s && Holds(s, v)
    requires n.entry.lock > 0 && (n.entry.lock == 1 ==> n.entry.info == None)
    ensures n.key in v && n.entry == v[n.key]
    ensures ConsistentBut(s, v[n.key := n.entry.(lock := n.entry.lock - 1)], n)
  {
  }

  /** Pruning to a canonical view again is what a release does. */
  lemma UnlockByPruned(v: View, w: View, k: Key)
    requires k in v && v[k].lock > 0 && Canonical(w)
    requires Pruned(v[k := v[k].(lock := v[k].lock - 1)], w)
    ensures w == AfterUnlock(v, k)
  {
    hide Meets;
    var u := v[k := v[k].(lock := v[k].lock - 1)];
    assert Locked(w) == Locked(u);
  }

  lemma KeptNodes(s: Links, t: Links, v: View)
    requires UniqueKeys(s) && Consistent(t, v) && forall n | n in t :: n in s
    ensures forall n | n in s && n.key in v :: n in t
  {
    forall n | n in s && n.key in v ensures n in t {
      var m :| m in t.Keys && m.key == n.key;
    }
  }

  /** The counter of a table is the number of stored prefixes, at most 2 * locked - 1. */
  lemma CountWithin(t: Table)
    requires t.Valid() && t.lost == 0
    ensures t.count == |t.view| && WithinBound(t.view)
  {
    hide Trie, Branches, Canonical, WithinBound;
    ConsistentCanonical(t.top, t.shape, t.family, t.view);
    CanonicalBound(t.view);
    TrieUnique(t.top, t.shape, t.family);
    CountedKeys(t.shape.Keys);
    assert |t.view| == |t.view.Keys| && |t.shape| == |t.shape.Keys|;
  }
}
