/** The Map-Register code of udp.c on the table: validation, cleaning, and the new mappings. */
module MapServer {
  import opened Types
  import opened Bits
  import opened Prefixes
  import opened Views
  import opened Shapes
  import opened Theory
  import opened Tries
  import opened Lookups
  import opened Registers
  import Sha1Spec
  import Sha1Stream
  import HmacSha1
  import KeyLoss

  // ---------- cutting off what lies below a node ----------

  /** The links without everything strictly below n. */
  ghost function CutLinks(s: Links, n: Node): Links
    requires n in s
  {
    map m | m in s && !(n.key < m.key) :: if m == n then Cell(s[n].parent, null, null) else s[m]
  }

  /** A node that stays has its children and its parent still there. */
  lemma CutNeighbours(s: Links, n: Node, m: Node, bit: bool)
    requires Linked(s) && Routed(s) && UniqueKeys(s) && n in s && m in s && !(n.key < m.key)
    ensures m != n && s[m].Link(bit) != null ==> s[m].Link(bit) in s && !(n.key < s[m].Link(bit).key)
    ensures s[m].parent != null ==> s[m].parent in s && s[m].parent != n && !(n.key < s[m].parent.key)
  {
    assert ChildLinked(s, m, bit) && ParentLinked(s, m);
    var c := s[m].Link(bit);
    if m != n && c != null && n.key < c.key {
      ParentCovers(s, c, n);
    }
    var p := s[m].parent;
    if p != null {
      assert ChildLinked(s, p, false) && ChildLinked(s, p, true);
    }
  }

  lemma CutLinked(s: Links, n: Node)
    requires Linked(s) && Routed(s) && UniqueKeys(s) && n in s
    ensures Linked(CutLinks(s, n))
  {
    var t := CutLinks(s, n);
    forall m | m in t ensures ChildLinked(t, m, false) && ChildLinked(t, m, true) && ParentLinked(t, m) {
      CutNeighbours(s, n, m, false);
      CutNeighbours(s, n, m, true);
      assert ChildLinked(s, m, false) && ChildLinked(s, m, true) && ParentLinked(s, m);
    }
  }

  lemma CutTrie(top: Node?, s: Links, n: Node, family: Family)
    requires Trie(top, s, family) && n in s
    ensures Trie(top, CutLinks(s, n), family) && UniqueKeys(CutLinks(s, n))
  {
    var t := CutLinks(s, n);
    CutLinked(s, n);
    assert Routed(t) by {
      forall x, m | x in t && m in t ensures RoutedPair(t, x, m) {
        assert RoutedPair(s, x, m);
      }
    }
    assert top != null && top.key <= n.key;
    assert Rooted(top, t);
  }

  lemma CutSize(s: Links, n: Node)
    requires n in s
    ensures Size(CutLinks(s, n)) <= Size(s)
  {
    assert CutLinks(s, n).Keys <= s.Keys;
    SubsetSize(CutLinks(s, n).Keys, s.Keys);
    assert |CutLinks(s, n)| == |CutLinks(s, n).Keys| && |s| == |s.Keys|;
  }

  lemma {:induction false} SubsetSize(a: set<Node>, b: set<Node>)
    requires a <= b
    ensures |a| <= |b|
  {
    if a != {} {
      var x :| x in a;
      SubsetSize(a - {x}, b - {x});
    }
  }

  lemma CutConsistent(s: Links, v: View, n: Node)
    requires Consistent(s, v) && UniqueKeys(s) && n in s && n.key in v && v[n.key].lock > 0
    ensures Consistent(CutLinks(s, n), AfterClean(v, n.key))
  {
    var t, w := CutLinks(s, n), AfterClean(v, n.key);
    CleanKeys(v, n.key);
    assert w.Keys == KeysOf(t.Keys);
    forall m | m in t ensures m.key in w && (w[m.key].lock == 0 ==> w[m.key].info == None && Branches(t, m)) {
      assert m in s;
    }
  }

  /** Both subtrees of the node are cut off. */
  method Detach(t: Table, node: Node)
    requires t.Structured() && node in t.shape
    modifies t`shape, t`lost, node`links
    ensures t.Structured() && t.shape == CutLinks(old(t.shape), node)
  {
    hide Trie, Size;
    CutTrie(t.top, t.shape, node, t.family);
    CutSize(t.shape, node);
    t.lost := t.lost + (Size(t.shape) - Size(CutLinks(t.shape, node)));
    if node.links.left != null {
      node.links := node.links.(left := null);
    }
    if node.links.right != null {
      node.links := node.links.(right := null);
    }
    t.shape := CutLinks(t.shape, node);
  }

  /** The information goes, the flags keep the range without `_MAPP` and the site. */
  method Reset(t: Table, node: Node, ghost before: Links)
    requires t.Structured() && Holds(before, t.view) && node in before && t.shape == CutLinks(before, node)
    requires node.key in t.view && t.view[node.key].lock > 0 && UniqueKeys(before)
    modifies t`view, node`entry
    ensures t.Structured() && Holds(t.shape, t.view) && t.view == AfterClean(old(t.view), node.key)
  {
    hide Trie, Size, Stored, CleanFlags;
    CleanKeys(t.view, node.key);
    node.entry := node.entry.(info := None);
    node.entry := node.entry.(flags := CleanFlags(node.entry.flags));
    t.view := AfterClean(t.view, node.key);
  }

  lemma CutMembers(s: Links, n: Node)
    requires n in s
    ensures forall m | m in CutLinks(s, n) :: m in s && !(n.key < m.key)
    ensures forall m | m in s && !(n.key < m.key) :: m in CutLinks(s, n)
  {
  }

  /** One round of `_ms_clean_site_mapping`: both subtrees are cut off, and the node is reset. */
  method CleanNode(t: Table, node: Node)
    requires t.Valid() && node in t.shape && node.entry.lock > 0
    modifies t`shape, t`lost, t`view, node`links, node`entry
    ensures t.Valid() && node.key in old(t.view) && t.view == AfterClean(old(t.view), node.key)
    ensures forall n | n in t.shape :: n in old(t.shape)
    ensures forall n | n in old(t.shape) && !(node.key < n.key) :: n in t.shape
  {
    hide Trie, Size, ConsistentBut, Stored, CutLinks, AfterClean, UniqueKeys;
    TrieUnique(t.top, t.shape, t.family);
    StoredKeys(t.shape, t.view);
    CutMembers(t.shape, node);
    CutConsistent(t.shape, t.view, node);
    Detach(t, node);
    Reset(t, node, old(t.shape));
  }

  // ---------- the site of an address prefix ----------

  /** The climb of `_ms_validate_eid`: up to the first configured node, the top excepted. */
  method Climb(t: Table, start: Node) returns (node: Node)
    requires t.Valid() && start in t.shape && t.top != null && t.top.key == []
    ensures node in t.shape
    ensures IsLongest(EidKeys(t.view) - {[]}, start.key, if node == t.top then None else Some(node.key))
    ensures node != t.top ==> IsEid(node.entry)
  {
    hide KeyOf, Trie, Size, UniqueKeys, ConsistentBut, Linked, Routed;
    TrieParts(t.top, t.shape, t.family);
    StoredKeys(t.shape, t.view);
    node := start;
    while node != t.top && !IsEid(node.entry)
      invariant node in t.shape && node.key <= start.key
      invariant forall x | x in t.shape && (IsEid(x.entry) || x == t.top) && x.key <= start.key :: x.key <= node.key
      decreases |node.key|
    {
      forall x | x in t.shape && (IsEid(x.entry) || x == t.top) && x.key <= start.key
        ensures t.shape[node].parent in t.shape && x.key <= t.shape[node].parent.key
      {
        ParentCovers(t.shape, node, x);
      }
      ParentCovers(t.shape, node, t.top);
      node := node.links.parent;
    }
    EidsBelowTop(t.top, t.shape, t.view);
  }

  lemma EidsBelowTop(top: Node?, s: Links, v: View)
    requires Holds(s, v) && v.Keys == KeysOf(s.Keys) && UniqueKeys(s) && top != null && top in s && top.key == []
    ensures forall k | k in EidKeys(v) - {[]} :: exists x :: x in s && x != top && x.key == k && IsEid(x.entry)
    ensures forall x | x in s && x != top && IsEid(x.entry) :: x.key in EidKeys(v) - {[]}
  {
    forall k | k in EidKeys(v) - {[]} ensures exists x :: x in s && x != top && x.key == k && IsEid(x.entry) {
      var x :| x in s && x.key == k;
    }
  }

  /** A longest match among all stored prefixes, and then among some of them. */
  lemma MatchThenClimb(stored: set<Key>, some: set<Key>, q: Key, m: Key, r: Option<Key>)
    requires some <= stored && IsLongest(stored, q, Some(m)) && IsLongest(some, m, r)
    ensures IsLongest(some, q, r)
  {
  }

  lemma TopIsStored(top: Node?, s: Links, family: Family, v: View)
    requires Trie(top, s, family) && Consistent(s, v) && top != null && top.key == []
    ensures [] in v
  {
    hide Linked, Routed, UniqueKeys;
    assert top in s;
  }

  lemma RootMatches(v: View, q: Key, r: Option<Key>)
    requires [] in v && IsLongest(v.Keys, q, r)
    ensures r.Some?
  {
    assert [] <= q;
  }

  lemma SomeStored(v: View)
    ensures EidKeys(v) - {[]} <= v.Keys
  {
  }

  lemma SiteFound(v: View, w: View, q: Key, site: Option<nat>, r: Option<Key>)
    requires MoreLocks(v, w) && IsLongest(EidKeys(v) - {[]}, q, r)
    requires site == if r == None then None else SiteAt(w, r.value)
    ensures SiteOf(v, q, site)
  {
    hide IsLongest;
    assert r.Some? ==> SiteAt(w, r.value) == SiteAt(v, r.value);
  }

  /** The `rsvd` pointer of a configured node. */
  method NodeSite(t: Table, node: Node) returns (site: Option<nat>)
    requires t.Valid() && node in t.shape && IsEid(node.entry)
    ensures site == SiteAt(t.view, node.key)
  {
    hide Trie, Size, ConsistentBut, Stored;
    site := node.entry.flags.value.site;
  }

  /** `_ms_validate_eid` for one address prefix. The node that matches is locked and never
      released. */
  method ValidateEid(t: Table, p: Prefix) returns (site: Option<nat>)
    requires t.Valid() && t.top != null && t.top.key == [] && p.family == t.family
    modifies t`view, t.shape.Keys`entry
    ensures t.Valid() && SiteOf(old(t.view), KeyOf(p), site) && MoreLocks(old(t.view), t.view)
    ensures exists m ::
      IsLongest(old(t.view).Keys, KeyOf(p), Some(m)) && t.view == old(t.view)[m := Bumped(old(t.view), m)]
  {
    hide KeyOf, Trie, Size, ConsistentBut, Holds, IsLongest, EidKeys, Stored, SiteOf, SiteAt, MoreLocks;
    ghost var v := t.view;
    TopIsStored(t.top, t.shape, t.family, t.view);
    var matched := MatchPrefix(t, p);
    RootMatches(v, KeyOf(p), KeyOrNone(matched));
    BumpIsMore(v, t.view, matched.key);
    var node := Climb(t, matched);
    SomeStored(v);
    MoreLocksSameEids(v, t.view);
    MatchThenClimb(v.Keys, EidKeys(v) - {[]}, KeyOf(p), matched.key, if node == t.top then None else Some(node.key));
    if node == t.top {
      site := None;
    } else {
      site := NodeSite(t, node);
    }
    SiteFound(v, t.view, KeyOf(p), site, if node == t.top then None else Some(node.key));
  }

  // ---------- a new mapping ----------

  /** `list_search` among the locators so far, then the new entry or the lower priority. */
  method AddEntry(l: Locs, e: MapEntry) returns (r: Locs)
    ensures r == AddLoc(l, e)
  {
    hide AddLoc;
    var i := 0;
    while i < |l| && l[i].rloc != e.rloc
      invariant 0 <= i <= |l| && forall j | 0 <= j < i :: l[j].rloc != e.rloc
    {
      i := i + 1;
    }
    AddLocAt(l, e, i);
    if i == |l| {
      r := l + [e];
    } else if l[i].priority > e.priority {
      r := l[i := e];
    } else {
      r := l;
    }
  }

  method CollectAll(es: Locs) returns (l: Locs)
    ensures l == Collect([], es)
  {
    l := [];
    assert es[0..] == es;
    for i := 0 to |es|
      invariant Collect(l, es[i..]) == Collect([], es)
    {
      assert es[i..][0] == es[i] && es[i..][1..] == es[i + 1..];
      l := AddEntry(l, es[i]);
    }
  }

  /** `_ms_process_register_record`: the node of the prefix, its flags, then its locators. */
  method ProcessRecord(t: Table, p: Prefix, es: Locs, m: Flags) returns (node: Node)
    requires t.Valid() && p.family == t.family
    modifies t`top, t`count, t`shape, t`view, t.shape.Keys
    ensures t.Valid() && node in t.shape
    ensures t.view == AfterRecord(old(t.view), Rec(KeyOf(p), Collect([], es), m))
    ensures forall n | n in t.shape :: n in old(t.shape) || fresh(n)
    ensures forall n | n in old(t.shape) :: n in t.shape
  {
    hide KeyOf, Trie, Size, ConsistentBut, Holds, Stored, AfterGet, Canonical, Merged;
    ghost var v := t.view;
    GetIsBumped(t.top, t.shape, t.family, v, KeyOf(p));
    node := t.Get(p);
    NodeEntry(t.shape, t.view, node);
    var was := t.SetInfo(node, Some([]));
    t.SetFlags(node, Some(Merged(node.entry.flags, m)));
    var locs := CollectAll(es);
    was := t.SetInfo(node, Some(locs));
  }

  lemma GetIsBumped(top: Node?, s: Links, family: Family, v: View, k: Key)
    requires Trie(top, s, family) && Consistent(s, v)
    ensures k in AfterGet(v, k) && AfterGet(v, k)[k] == Bumped(v, k)
  {
    hide Trie, Canonical, AfterGet, Bumped;
    ConsistentCanonical(top, s, family, v);
    GetEntries(v, k);
  }

  lemma NodeEntry(s: Links, v: View, n: Node)
    requires Holds(s, v) && n in s
    ensures n.key in v && n.entry == v[n.key]
  {
  }

  // ---------- the stored hash and the authentication data ----------

  type Bytes = seq<bv8>

  /** A Map-Register: what comes before the nonce, the nonce, key identifier and length,
      authentication data, records. */
  datatype RegisterMessage = RegisterMessage(head: Bytes, nonce: Bytes, mid: Bytes, auth: Bytes, body: Bytes)

  /** The message with its authentication data cleared, and the nonce too if it is not to count. */
  function Blank(pk: RegisterMessage, noNonce: bool): Bytes {
    pk.head + (if noNonce then Sha1Spec.Zeros(|pk.nonce|) else pk.nonce) + pk.mid
    + Sha1Spec.Zeros(|pk.auth|) + pk.body
  }

  /** The message as it lies in the packet. */
  function Octets(pk: RegisterMessage): Bytes {
    pk.head + pk.nonce + pk.mid + pk.auth + pk.body
  }

  /** Is a place in the nonce, or in the authentication data? */
  predicate InNonce(pk: RegisterMessage, i: nat) {
    |pk.head| <= i < |pk.head| + |pk.nonce|
  }

  predicate InAuth(pk: RegisterMessage, i: nat) {
    |pk.head| + |pk.nonce| + |pk.mid| <= i < |pk.head| + |pk.nonce| + |pk.mid| + |pk.auth|
  }

  /** What is hashed is the packet with zeros for the authentication data, and for the nonce if it is not
      to count. */
  lemma BlankIs(pk: RegisterMessage, noNonce: bool)
    ensures |Blank(pk, noNonce)| == |Octets(pk)|
    ensures forall i | 0 <= i < |Octets(pk)| ::
      Blank(pk, noNonce)[i] == if InAuth(pk, i) || (noNonce && InNonce(pk, i)) then 0 else Octets(pk)[i]
  {
  }

  /** `_ms_recal_hashing`: as much of the HMAC as the authentication data has room for. */
  function Hashing(key: Bytes, pk: RegisterMessage, noNonce: bool): Bytes
    requires |pk.auth| <= 20
  {
    Sha1Spec.Hmac(key, Blank(pk, noNonce))[..|pk.auth|]
  }

  /** A key in memory ends with a zero. */
  ghost predicate Terminated(key: array<bv8>)
    reads key
  {
    key.Length > 0 && key[key.Length - 1] == 0
  }

  /** `strlen`. */
  method StrLen(key: array<bv8>) returns (n: nat)
    requires Terminated(key)
    ensures n < key.Length && key[n] == 0 && key[..n] == KeyLoss.Str(key[..])
  {
    n := 0;
    while key[n] != 0
      invariant n < key.Length && forall j | 0 <= j < n :: key[j] != 0
      decreases key.Length - n
    {
      n := n + 1;
    }
    assert key[..] == key[..n] + key[n..];
    KeyLoss.StrEnds(key[..n], key[n..]);
    KeyLoss.StrIsString(key[..n]);
  }

  /** `_ms_recal_hashing` hashes the key where the site has it. */
  method RecalHashing(key: array<bv8>, pk: RegisterMessage, noNonce: bool) returns (r: Bytes)
    requires Terminated(key) && |pk.auth| <= 20
    requires key.Length + 128 <= 0x1_0000_0000 && |Blank(pk, noNonce)| + 64 <= 0x1_0000_0000
    modifies key
    ensures r == Hashing(KeyLoss.Str(old(key[..])), pk, noNonce)
    ensures Terminated(key) && KeyLoss.Str(key[..]) == KeyLoss.NextKey(KeyLoss.Str(old(key[..])))
  {
    hide Blank, Sha1Spec.Hmac, Sha1Spec.Xored, Sha1Spec.KeyBlock, Sha1Spec.Sha1, KeyLoss.Str, KeyLoss.NextKey,
      Sha1Stream.Overwritten;
    var n := StrLen(key);
    ghost var was := key[..];
    var blank := Blank(pk, noNonce);
    var d := new bv8[|blank|](i requires 0 <= i < |blank| => blank[i]);
    var out := new bv8[20];
    assert d[..|blank|] == blank;
    HmacOf(key, n, d, |blank|, out);
    r := out[..|pk.auth|];
    assert r == out[..20][..|pk.auth|];
    assert key[..] == key[..n] + key[n..];
    StringAfter(was, key[..], n);
  }

  /** The string in memory before and after. */
  lemma StringAfter(was: Bytes, now: Bytes, n: nat)
    requires n < |was| == |now| && was[n] == 0 && was[..n] == KeyLoss.Str(was)
    requires now[..n] == Sha1Stream.Overwritten(0, was[..n]) && now[n..] == was[n..]
    ensures KeyLoss.Str(now) == KeyLoss.NextKey(KeyLoss.Str(was))
  {
    hide Sha1Stream.Overwritten, KeyLoss.Str;
    assert now == now[..n] + now[n..] && now[n..][0] == 0;
    KeyLoss.StrEnds(now[..n], now[n..]);
  }

  /** The sequence of HMAC calls in `_ms_recal_hashing`. */
  method HmacOf(k: array<bv8>, n: nat, d: array<bv8>, m: nat, out: array<bv8>)
    requires n <= k.Length && m <= d.Length && out.Length == 20 && out != k && out != d && k != d
    requires n + 128 <= 0x1_0000_0000 && m + 64 <= 0x1_0000_0000
    modifies k, d, out
    ensures out[..20] == Sha1Spec.Hmac(old(k[..n]), old(d[..m]))
    ensures k[..n] == Sha1Stream.Overwritten(0, old(k[..n])) && k[n..] == old(k[n..])
  {
    hide Sha1Spec.Hmac, HmacSha1.HmacCtx.TakingKey, HmacSha1.HmacCtx.Keyed, HmacSha1.HmacCtx.InMessage,
      Sha1Stream.Overwritten;
    ghost var key, data := k[..n], d[..m];
    assert [] + key == key && [] + data == data;
    var ctx := new HmacSha1.HmacCtx();
    ctx.UpdateKey(k, n);
    ctx.EndKey();
    ctx.StartMessage();
    ctx.UpdateMessage(d, m, []);
    ctx.EndMessage(out, data);
  }

  /** `strncmp(a, b, n) == 0` on two buffers with zeros behind them. */
  predicate SameUpTo(a: Bytes, b: Bytes, n: nat)
    decreases n
  {
    n == 0 || (First(a) == First(b) && (First(a) == 0 || SameUpTo(Rest(a), Rest(b), n - 1)))
  }

  function First(a: Bytes): bv8 {
    if a == [] then 0 else a[0]
  }

  function Rest(a: Bytes): Bytes {
    if a == [] then [] else a[1..]
  }

  lemma {:induction false} SameAsItself(a: Bytes, n: nat)
    ensures SameUpTo(a, a, n)
    decreases n
  {
    if n > 0 {
      SameAsItself(Rest(a), n - 1);
    }
  }

  /** Two strings of n octets compare equal exactly if they agree up to a common zero or to the end. */
  lemma {:induction false} SameUpToMeans(a: Bytes, b: Bytes, n: nat)
    requires |a| == |b| == n
    ensures SameUpTo(a, b, n) <==> exists j :: 0 <= j <= n && a[..j] == b[..j] && (j == n || (a[j] == 0 && b[j] == 0))
    decreases n
  {
    if n > 0 {
      SameUpToMeans(a[1..], b[1..], n - 1);
      if j :| 0 <= j <= n && a[..j] == b[..j] && (j == n || (a[j] == 0 && b[j] == 0)) {
        if j > 0 {
          assert a[0] == a[..j][0] && b[0] == b[..j][0];
          assert a[1..][..j - 1] == a[..j][1..] && b[1..][..j - 1] == b[..j][1..];
        }
      }
      if SameUpTo(a, b, n) && a[0] != 0 {
        var j :| 0 <= j <= n - 1 && a[1..][..j] == b[1..][..j] && (j == n - 1 || (a[1..][j] == 0 && b[1..][j] == 0));
        assert a[..j + 1] == [a[0]] + a[1..][..j] && b[..j + 1] == [b[0]] + b[1..][..j];
      } else if SameUpTo(a, b, n) {
        assert a[..0] == b[..0];
      }
    } else {
      assert a[..0] == b[..0];
    }
  }

  /** Zeros behind a string make no difference. */
  lemma {:induction false} SameUpToZeros(a: Bytes, b: Bytes, n: nat)
    ensures SameUpTo(a + [0], b, n) == SameUpTo(a, b, n) && SameUpTo(a, b + [0], n) == SameUpTo(a, b, n)
    decreases n
  {
    if n > 0 && First(a) != 0 && First(b) != 0 {
      assert Rest(a + [0]) == Rest(a) + [0] && Rest(b + [0]) == Rest(b) + [0];
      SameUpToZeros(Rest(a), Rest(b), n - 1);
    }
  }

  /** What a site holds between two messages. */
  datatype SiteState = SiteState(key: Bytes, hashing: Option<Bytes>)

  /** `struct site_info`: its key, its configured nodes, the hash of its last update. */
  class Site {
    const key: array<bv8>
    const eids: seq<Node>
    var hashing: Option<Bytes>

    ghost function State(): (s: SiteState)
      reads this, key
      ensures KeyLoss.IsString(s.key)
    {
      KeyLoss.StrIsString(key[..]);
      SiteState(KeyLoss.Str(key[..]), hashing)
    }

    /** The key is copied with the zero behind it. */
    constructor (key: Bytes, eids: seq<Node>)
      ensures fresh(this.key) && Terminated(this.key) && this.key.Length == |key| + 1 && this.eids == eids
      ensures State() == SiteState(KeyLoss.Str(key), None)
    {
      var copy := new bv8[|key| + 1](i requires 0 <= i <= |key| => if i < |key| then key[i] else 0);
      this.key, this.eids, hashing := copy, eids, None;
      assert copy[..] == key + [0];
      KeyLoss.StrEnds(key, [0]);
    }
  }

  /** The message is the one that was accepted last, up to nonce and authentication data. */
  predicate Known(hashing: Option<Bytes>, key: Bytes, pk: RegisterMessage)
    requires |pk.auth| <= 20
  {
    hashing.Some? && SameUpTo(hashing.value, Hashing(key, pk, true), |pk.auth|)
  }

  predicate Authentic(key: Bytes, pk: RegisterMessage)
    requires |pk.auth| <= 20
  {
    SameUpTo(pk.auth, Hashing(key, pk, false), |pk.auth|)
  }

  /** The answer to a message all of whose prefixes belong to a site. The second hashing is under
      what the first one has left of the key. */
  function Verdict(s: SiteState, pk: RegisterMessage): int
    requires |pk.auth| <= 20
  {
    if Known(s.hashing, s.key, pk) then 0 else if Authentic(KeyLoss.NextKey(s.key), pk) then 1 else -1
  }

  /** What such a message leaves of the site. */
  function AfterCompare(s: SiteState, pk: RegisterMessage): SiteState
    requires |pk.auth| <= 20
  {
    if Known(s.hashing, s.key, pk) then s.(key := KeyLoss.NextKey(s.key))
    else SiteState(KeyLoss.NextKey(KeyLoss.NextKey(s.key)),
                   if Verdict(s, pk) == 1 then Some(Hashing(s.key, pk, true)) else s.hashing)
  }

  /** A site with a key of less than 128 characters keeps it, and judges by it: an update is accepted
      exactly if it is new and authentic. */
  lemma ShortKeyStays(s: SiteState, pk: RegisterMessage)
    requires |pk.auth| <= 20 && KeyLoss.IsString(s.key) && |s.key| < 128
    ensures AfterCompare(s, pk).key == s.key
    ensures Verdict(s, pk) == if Known(s.hashing, s.key, pk) then 0 else if Authentic(s.key, pk) then 1 else -1
  {
    hide Known, Authentic, Hashing, KeyLoss.NextKey;
    KeyLoss.KeySurvives(s.key);
  }

  /** What a sender with the key puts into a message: the HMAC of the packet with zeros in its place. */
  ghost predicate Signed(pk: RegisterMessage, key: Bytes)
    requires |pk.auth| <= 20
  {
    pk.auth == Sha1Spec.Hmac(key, Octets(pk.(auth := Sha1Spec.Zeros(|pk.auth|))))[..|pk.auth|]
  }

  /** A new message that is signed with the site's key is an update, and its hash is remembered. */
  lemma SignedIsAccepted(s: SiteState, pk: RegisterMessage)
    requires |pk.auth| <= 20 && KeyLoss.IsString(s.key) && |s.key| < 128
    requires Signed(pk, s.key) && !Known(s.hashing, s.key, pk)
    ensures Verdict(s, pk) == 1 && AfterCompare(s, pk) == SiteState(s.key, Some(Hashing(s.key, pk, true)))
  {
    hide Known, Sha1Spec.Hmac, KeyLoss.NextKey;
    ShortKeyStays(s, pk);
    assert Blank(pk, false) == Octets(pk.(auth := Sha1Spec.Zeros(|pk.auth|)));
    SameAsItself(pk.auth, |pk.auth|);
  }

  /** The two comparisons of `_ms_validate_register`, the stored hash first. */
  method Compare(site: Site, pk: RegisterMessage) returns (rt: int)
    requires Terminated(site.key) && |pk.auth| <= 20
    requires site.key.Length + 128 <= 0x1_0000_0000 && |Blank(pk, true)| + 64 <= 0x1_0000_0000
    modifies site, site.key
    ensures Terminated(site.key) && rt == Verdict(old(site.State()), pk)
    ensures site.State() == AfterCompare(old(site.State()), pk)
  {
    hide SameUpTo, Hashing, KeyLoss.Str, KeyLoss.NextKey;
    assert |Blank(pk, false)| == |Blank(pk, true)|;
    var hashing := RecalHashing(site.key, pk, true);
    if site.hashing.Some? && SameUpTo(site.hashing.value, hashing, |pk.auth|) {
      return 0;
    }
    var hmac := RecalHashing(site.key, pk, false);
    if !SameUpTo(pk.auth, hmac, |pk.auth|) {
      return -1;
    }
    site.hashing := Some(hashing);
    rt := 1;
  }
}
