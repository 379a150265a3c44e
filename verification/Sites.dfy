/** The configuration of a map server (parser.c): sites and their EID prefixes. It sets up what
    every Map-Register keeps. */
module Sites {
  import opened Types
  import opened Bits
  import opened Prefixes
  import opened Views
  import opened Shapes
  import opened Theory
  import opened Tries
  import opened Lookups
  import opened Registers
  import opened MapServer
  import opened Databases
  import opened MapRegister
  import KeyLoss

  /** The flags of a configured prefix. */
  function EidFlags(id: nat): Flags {
    Flags({Eid}, 0, false, 0, false, 0, 0, false, Some(id))
  }

  ghost function AfterEid(v: View, k: Key, id: nat): View {
    AfterGet(v, k)[k := Bumped(v, k).(flags := Some(Merged(Bumped(v, k).flags, EidFlags(id))))]
  }

  /** Some prefixes have become configured ones of a site. */
  ghost predicate Grown(v: View, w: View, ks: seq<Key>, id: nat) {
    && EidKeys(w) == EidKeys(v) + SetOf(ks)
    && (forall k | k in EidKeys(v) && k !in ks :: SiteAt(w, k) == SiteAt(v, k))
    && (forall k | k in ks :: SiteAt(w, k) == Some(id))
  }

  /** A configured prefix: one role more, its site, nothing else in its flags, and its information is left
      alone. */
  lemma EidFields(v: View, k: Key, id: nat)
    requires Canonical(v)
    ensures k in AfterEid(v, k, id) && AfterEid(v, k, id)[k].flags.Some?
    ensures var g := AfterEid(v, k, id)[k].flags.value;
      && g.range == (if k in v && v[k].flags.Some? then v[k].flags.value.range else {}) + {Eid} && g.site == Some(id)
      && g.act == g.version == g.ttl == g.referral == 0 && !g.auth && !g.proxy && !g.incomplete
    ensures AfterEid(v, k, id)[k].info == if k in v then v[k].info else None
  {
    hide Canonical, AfterGet;
    GetEntries(v, k);
  }

  lemma EidEntered(v: View, k: Key, id: nat)
    requires Canonical(v)
    ensures Canonical(AfterEid(v, k, id)) && LocksGrow(v, AfterEid(v, k, id))
    ensures Grown(v, AfterEid(v, k, id), [k], id)
    ensures k in AfterEid(v, k, id) && AfterEid(v, k, id)[k].lock > 0
  {
    hide Canonical, AfterGet;
    GetEntries(v, k);
    LockedAfterGet(v, k);
    SameLocks(AfterGet(v, k), AfterEid(v, k, id));
  }

  lemma GrownStep(v: View, u: View, w: View, ks: seq<Key>, k: Key, id: nat)
    requires Grown(v, u, ks, id) && Grown(u, w, [k], id)
    ensures Grown(v, w, ks + [k], id)
  {
    hide EidKeys, SiteAt;
    assert k in [k];
    assert SetOf(ks + [k]) == SetOf(ks) + SetOf([k]);
  }

  /** The prefixes of a site are disjoint from each other and from those configured before. */
  ghost predicate Apart(v: View, ks: seq<Key>) {
    && (forall i, j | 0 <= i < j < |ks| :: !Overlap(ks[i], ks[j]))
    && (forall k, e | k in ks && e in EidKeys(v) :: !Overlap(e, k))
  }

  lemma OverlapsItself(k: Key)
    ensures Overlap(k, k)
  {
  }

  lemma GrownDisjoint(v: View, w: View, ks: seq<Key>, id: nat)
    requires Grown(v, w, ks, id) && Apart(v, ks) && Disjoint(EidKeys(v)) && SitesKnown(v, id)
    ensures Disjoint(EidKeys(w)) && SitesKnown(w, id + 1)
  {
    hide EidKeys, SiteAt;
    forall a, b | a in EidKeys(w) && b in EidKeys(w) && a != b ensures !Overlap(a, b) {
      if a in ks && b in ks {
        var i :| 0 <= i < |ks| && ks[i] == a;
        var j :| 0 <= j < |ks| && ks[j] == b;
        assert !Overlap(ks[if i < j then i else j], ks[if i < j then j else i]);
      }
    }
  }

  lemma GrownConfigured(v: View, w: View, ks: seq<Key>, id: nat)
    requires Grown(v, w, ks, id) && Apart(v, ks) && forall k | k in ks :: k in w && w[k].lock > 0
    ensures Configured(w, ks)
  {
    forall k | k in ks ensures IsEid(w[k]) {
      assert k in EidKeys(w);
    }
  }

  lemma OldStays(v: View, w: View, ks: seq<Key>, id: nat, old': seq<Key>, i: nat)
    requires Grown(v, w, ks, id) && Apart(v, ks) && LocksGrow(v, w) && i < id
    requires Configured(v, old') && SiteKeys(v, old', i)
    ensures Configured(w, old') && SiteKeys(w, old', i)
  {
    forall k | k in old' ensures k in EidKeys(v) && k in EidKeys(w) {
    }
    forall k | k in EidKeys(v) ensures k !in ks {
      OverlapsItself(k);
    }
  }

  lemma NewSiteKeys(v: View, w: View, ks: seq<Key>, id: nat)
    requires Grown(v, w, ks, id) && Apart(v, ks) && SitesKnown(v, id)
    ensures SiteKeys(w, ks, id)
  {
    hide EidKeys, SiteAt;
    forall k | k in EidKeys(v) ensures k !in ks {
      OverlapsItself(k);
    }
  }

  // ---------- the validity test of a delegated prefix ----------

  ghost function Flagged(v: View): set<Key> {
    set k | k in v && v[k].flags.Some?
  }

  /** The longest stored prefix that covers k. */
  ghost function MatchOf(v: View, k: Key): Key {
    if m: Key :| IsLongest(v.Keys, k, Some(m)) then m else []
  }

  /** `_valid_prefix` for a delegated prefix: it is stored already, or the first node with flags on
      the way up from its longest match, the top being the last one, is the top or belongs to a
      range that may be delegated from. */
  ghost predicate Acceptable(v: View, k: Key) {
    |MatchOf(v, k)| == |k|
    || exists r: Key :: IsLongest(Flagged(v) + {[]}, MatchOf(v, k), Some(r)) && (r == [] || Delegates(v, r))
  }

  predicate DelegatesIn(e: Entry) {
    e.flags.Some? && (Geid in e.flags.value.range || Eid in e.flags.value.range)
  }

  ghost predicate Delegates(v: View, k: Key) {
    k in v && DelegatesIn(v[k])
  }

  /** The test locks the match, and nobody releases it. */
  ghost function Touched(v: View, k: Key): View {
    v[MatchOf(v, k) := Bumped(v, MatchOf(v, k))]
  }

  lemma MatchIs(v: View, k: Key, m: Key)
    requires IsLongest(v.Keys, k, Some(m))
    ensures MatchOf(v, k) == m
  {
    hide IsLongest;
    LongestUnique(v.Keys, k, Some(m), Some(MatchOf(v, k)));
  }

  /** The node with flags that is nearest above a prefix decides whether it may be delegated: if it is not
      the root, it must be a `_GEID` or an `_EID`. */
  lemma NearestDecides(v: View, k: Key, g: Key)
    requires [] in v && k !in v && g in v && g != [] && v[g].flags.Some? && g <= k
    requires forall x | x in v && x <= k && v[x].flags.Some? :: x <= g
    ensures Acceptable(v, k) <==> Geid in v[g].flags.value.range || Eid in v[g].flags.value.range
  {
    hide MatchOf, IsLongest;
    var m := LongestStored(v, k);
    MatchIs(v, k, m);
    StoredCover(v, k, m);
    assert g <= m;
    IsNearest(v, m, g);
    ClimbDecides(v, k, g);
  }

  lemma StoredCover(v: View, k: Key, m: Key)
    requires IsLongest(v.Keys, k, Some(m)) && k !in v
    ensures m in v && m <= k && |m| < |k| && forall x | x in v && x <= k :: x <= m
  {
    assert m <= k && |m| == |k| ==> m == k;
  }

  lemma IsNearest(v: View, m: Key, g: Key)
    requires g in v && v[g].flags.Some? && g <= m && forall x | x in v && x <= m && v[x].flags.Some? :: x <= g
    ensures IsLongest(Flagged(v) + {[]}, m, Some(g))
  {
  }

  /** Where no node with flags is above it but the root, a prefix may be delegated, and one that is stored
      already may always be. */
  lemma FreeOrStored(v: View, k: Key)
    requires [] in v && (k in v || forall x | x in v && x <= k && v[x].flags.Some? :: x == [])
    ensures Acceptable(v, k)
  {
    hide MatchOf, IsLongest;
    var m := LongestStored(v, k);
    MatchIs(v, k, m);
    if k in v {
      StoredIsLongest(v, k, m);
    } else {
      StoredCover(v, k, m);
      RootNearest(v, m);
    }
  }

  lemma StoredIsLongest(v: View, k: Key, m: Key)
    requires IsLongest(v.Keys, k, Some(m)) && k in v
    ensures m == k
  {
    assert k <= m && m <= k;
  }

  lemma RootNearest(v: View, m: Key)
    requires forall x | x in v && x <= m && v[x].flags.Some? :: x == []
    ensures IsLongest(Flagged(v) + {[]}, m, Some([]))
  {
  }

  /** The longest stored prefix that covers a key. */
  lemma LongestStored(v: View, k: Key) returns (m: Key)
    requires [] in v
    ensures IsLongest(v.Keys, k, Some(m))
  {
    m := LongestBelow(v, k, |k|);
  }

  lemma {:induction false} LongestBelow(v: View, k: Key, n: nat) returns (m: Key)
    requires [] in v && n <= |k| && forall x | x in v && x <= k :: |x| <= n
    ensures IsLongest(v.Keys, k, Some(m))
  {
    if k[..n] in v {
      m := k[..n];
      forall x | x in v && x <= k ensures x <= m {
        assert x == k[..|x|] == m[..|x|];
      }
    } else {
      forall x | x in v && x <= k ensures |x| < n {
        assert x == k[..|x|];
      }
      assert n > 0 by {
        assert k[..0] == [];
      }
      m := LongestBelow(v, k, n - 1);
    }
  }

  /** The climb of `_valid_prefix`. */
  method ClimbFlags(t: Table, start: Node) returns (node: Node)
    requires Standing(t) && start in t.shape
    ensures node in t.shape && IsLongest(Flagged(t.view) + {[]}, start.key, Some(node.key))
    ensures (node == t.top <==> node.key == []) && (node != t.top ==> node.entry.flags.Some?)
  {
    hide KeyOf, Trie, Size, UniqueKeys, ConsistentBut, Linked, Routed;
    TrieParts(t.top, t.shape, t.family);
    StoredKeys(t.shape, t.view);
    node := start;
    while node != t.top && !node.entry.flags.Some?
      invariant node in t.shape && node.key <= start.key
      invariant forall x | x in t.shape && (x.entry.flags.Some? || x == t.top) && x.key <= start.key ::
        x.key <= node.key
      decreases |node.key|
    {
      forall x | x in t.shape && (x.entry.flags.Some? || x == t.top) && x.key <= start.key
        ensures t.shape[node].parent in t.shape && x.key <= t.shape[node].parent.key
      {
        ParentCovers(t.shape, node, x);
      }
      ParentCovers(t.shape, node, t.top);
      node := node.links.parent;
    }
    FlaggedNodes(t.top, t.shape, t.view);
  }

  lemma FlaggedNodes(top: Node?, s: Links, v: View)
    requires Holds(s, v) && v.Keys == KeysOf(s.Keys) && UniqueKeys(s) && top != null && top in s && top.key == []
    ensures forall k | k in Flagged(v) + {[]} :: exists x :: x in s && x.key == k && (x.entry.flags.Some? || x == top)
    ensures forall x | x in s && (x.entry.flags.Some? || x == top) :: x.key in Flagged(v) + {[]}
    ensures forall x | x in s && x.key == [] :: x == top
  {
    forall k | k in Flagged(v) + {[]} ensures exists x :: x in s && x.key == k && (x.entry.flags.Some? || x == top) {
      if k == [] {
        assert top in s && top.key == k;
      } else {
        var x :| x in s && x.key == k;
      }
    }
  }

  lemma FlagsTouched(v: View, k: Key)
    requires MatchOf(v, k) in v
    ensures Flagged(Touched(v, k)) == Flagged(v)
    ensures forall x :: Delegates(Touched(v, k), x) <==> Delegates(v, x)
  {
    hide MatchOf;
  }

  /** `_valid_prefix(p, _EID)`. */
  method ValidPrefix(t: Table, p: Prefix) returns (ok: bool)
    requires Standing(t) && p.family == t.family
    modifies t`view, t.shape.Keys`entry
    ensures Standing(t) && t.view == Touched(old(t.view), KeyOf(p)) && MatchOf(old(t.view), KeyOf(p)) in old(t.view)
    ensures ok <==> Acceptable(old(t.view), KeyOf(p))
  {
    hide KeyOf, Trie, Size, ConsistentBut, Holds, IsLongest, Stored, Flagged, MatchOf;
    ghost var v := t.view;
    TopIsStored(t.top, t.shape, t.family, v);
    var rn := MatchPrefix(t, p);
    RootMatches(v, KeyOf(p), KeyOrNone(rn));
    MatchIs(v, KeyOf(p), rn.key);
    FlagsTouched(v, KeyOf(p));
    if rn.p.len == p.len {
      KeyLength(t, rn);
      return true;
    }
    KeyLength(t, rn);
    var node := ClimbFlags(t, rn);
    ok := node == t.top || DelegatesIn(node.entry);
    NodeDelegates(t, node);
    ClimbDecides(v, KeyOf(p), node.key);
  }

  lemma KeyLength(t: Table, n: Node)
    requires t.Valid() && n in t.shape
    ensures |n.key| == n.p.len
  {
    hide Shape, ConsistentBut;
  }

  lemma NodeDelegates(t: Table, n: Node)
    requires t.Valid() && n in t.shape
    ensures Delegates(t.view, n.key) <==> DelegatesIn(n.entry)
  {
    hide Trie, Size, ConsistentBut, Stored;
  }

  lemma ClimbDecides(v: View, k: Key, r: Key)
    requires IsLongest(Flagged(v) + {[]}, MatchOf(v, k), Some(r)) && |MatchOf(v, k)| != |k|
    ensures Acceptable(v, k) <==> r == [] || Delegates(v, r)
  {
    hide IsLongest, Flagged, MatchOf, Delegates;
    forall q: Key | IsLongest(Flagged(v) + {[]}, MatchOf(v, k), Some(q)) ensures q == r {
      LongestUnique(Flagged(v) + {[]}, MatchOf(v, k), Some(q), Some(r));
    }
  }

  // ---------- the elements of a site ----------

  /** The contents after one `delegated_eid_prefix` element. */
  ghost function AfterElement(v: View, k: Key, id: nat): View {
    AfterEid(Touched(v, k), k, id)
  }

  /** One `delegated_eid_prefix` element: the test, the node, then its flags. A prefix that fails the
      test ends the program. */
  method AddEid(t: Table, p: Prefix, id: nat) returns (node: Node?)
    requires Standing(t) && p.family == t.family
    modifies t`top, t`count, t`shape, t`view, t.shape.Keys
    ensures Standing(t) && (node != null <==> Acceptable(old(t.view), KeyOf(p)))
    ensures MatchOf(old(t.view), KeyOf(p)) in old(t.view)
    ensures node != null ==> node in t.shape && node.key == KeyOf(p)
    ensures node != null ==> t.view == AfterElement(old(t.view), KeyOf(p), id)
    ensures forall n | n in t.shape :: n in old(t.shape) || fresh(n)
    ensures forall n | n in old(t.shape) :: n in t.shape
  {
    hide KeyOf, Trie, Size, ConsistentBut, Holds, Stored, AfterGet, Canonical, Merged, LocksGrow, Grown, AfterEid,
      Acceptable, Touched, MatchOf;
    var ok := ValidPrefix(t, p);
    if !ok {
      return null;
    }
    ghost var v := t.view;
    TopIsStored(t.top, t.shape, t.family, v);
    ConsistentCanonical(t.top, t.shape, t.family, v);
    GetIsBumped(t.top, t.shape, t.family, v, KeyOf(p));
    EidEntered(v, KeyOf(p), id);
    KeyGrows(v, AfterEid(v, KeyOf(p), id), []);
    var got := t.Get(p);
    NodeEntry(t.shape, t.view, got);
    t.SetFlags(got, Some(Merged(got.entry.flags, EidFlags(id))));
    IsAfterEid(v, KeyOf(p), id);
    RootOnTop(t.top, t.shape, t.family, t.view);
    node := got;
  }

  lemma IsAfterEid(v: View, k: Key, id: nat)
    requires k in AfterGet(v, k) && AfterGet(v, k)[k] == Bumped(v, k)
    ensures AfterEid(v, k, id)
      == AfterGet(v, k)[k := AfterGet(v, k)[k].(flags := Some(Merged(Bumped(v, k).flags, EidFlags(id))))]
  {
  }

  lemma KeyGrows(v: View, w: View, k: Key)
    requires LocksGrow(v, w) && k in v
    ensures k in w
  {
  }

  /** The element goes to the table of its family. */
  method AddEidIn(d: Db, p: Prefix, id: nat) returns (node: Node?)
    requires Ready(d)
    modifies d.four`top, d.four`count, d.four`shape, d.four`view, d.four.shape.Keys
    modifies d.six`top, d.six`count, d.six`shape, d.six`view, d.six.shape.Keys
    ensures Ready(d) && (node != null <==> Acceptable(old(Contents(d)).Of(p.family), KeyOf(p)))
    ensures MatchOf(old(Contents(d)).Of(p.family), KeyOf(p)) in old(Contents(d)).Of(p.family)
    ensures node != null ==> node.key == KeyOf(p) && node.p.family == p.family && node in d.Of(p.family).shape
    ensures node != null ==>
      Contents(d).Of(p.family) == AfterElement(old(Contents(d)).Of(p.family), KeyOf(p), id)
    ensures forall f | f != p.family :: Contents(d).Of(f) == old(Contents(d)).Of(f)
    ensures forall f, n | n in d.Of(f).shape :: n in old(d.Of(f).shape) || fresh(n)
    ensures forall f, n | n in old(d.Of(f).shape) :: n in d.Of(f).shape
  {
    hide KeyOf, Trie, Size, ConsistentBut, Holds, Stored, AfterElement, Acceptable, MatchOf;
    NodesApart(d);
    if p.family == IPv4 {
      node := AddEid(d.four, p, id);
    } else {
      node := AddEid(d.six, p, id);
    }
    NodesApart(d);
    if node != null {
      assert node in d.Of(p.family).shape;
    }
  }

  /** The prefixes for one of the tables. */
  ghost function KeysOfPrefixes(ps: seq<Prefix>, f: Family): seq<Key> {
    if ps == [] then []
    else KeysOfPrefixes(ps[..|ps| - 1], f) + if ps[|ps| - 1].family == f then [KeyOf(ps[|ps| - 1])] else []
  }

  lemma PrefixKeysStep(ps: seq<Prefix>, i: nat, f: Family)
    requires i < |ps|
    ensures ps[i].family == f ==> KeysOfPrefixes(ps[..i + 1], f) == KeysOfPrefixes(ps[..i], f) + [KeyOf(ps[i])]
    ensures ps[i].family != f ==> KeysOfPrefixes(ps[..i + 1], f) == KeysOfPrefixes(ps[..i], f)
  {
    hide KeyOf;
    assert ps[..i + 1][..i] == ps[..i];
  }

  lemma {:induction false} FamilyAppend(ns: seq<Node>, n: Node, f: Family)
    ensures OfFamily(ns + [n], f) == OfFamily(ns, f) + if n.p.family == f then [n] else []
  {
    if ns == [] {
      assert ns + [n] == [n] && [n][1..] == [];
    } else {
      assert (ns + [n])[1..] == ns[1..] + [n];
      FamilyAppend(ns[1..], n, f);
    }
  }

  lemma NodeKeysStep(ns: seq<Node>, n: Node, f: Family)
    ensures n.p.family == f ==> FamilyKeys(ns + [n], f) == FamilyKeys(ns, f) + [n.key]
    ensures n.p.family != f ==> FamilyKeys(ns + [n], f) == FamilyKeys(ns, f)
  {
    hide OfFamily;
    FamilyAppend(ns, n, f);
    if n.p.family == f {
      assert KeysIn(OfFamily(ns, f) + [n]) == KeysIn(OfFamily(ns, f)) + [n.key];
    } else {
      assert OfFamily(ns, f) + [] == OfFamily(ns, f);
    }
  }

  /** One table after some elements of a site. */
  ghost predicate Added(v: View, w: View, ks: seq<Key>, id: nat) {
    && Grown(v, w, ks, id) && LocksGrow(v, w) && SameMappings(v, w)
    && forall k | k in ks :: k in w && w[k].lock > 0
  }

  /** No mapping and no information comes or goes. */
  ghost predicate SameMappings(v: View, w: View) {
    MappKeys(w) == MappKeys(v) && WithInfo(w) == WithInfo(v)
  }

  lemma EidAddsNoMapping(v: View, k: Key, id: nat)
    requires Canonical(v)
    ensures SameMappings(v, AfterEid(v, k, id))
  {
    hide Canonical, AfterGet;
    GetEntries(v, k);
  }

  lemma LocksAddNoMapping(u: View, w: View)
    requires MoreLocks(u, w)
    ensures SameMappings(u, w)
  {
  }

  lemma AddedNone(v: View, id: nat)
    ensures Added(v, v, [], id)
  {
    assert SetOf([]) == {};
  }

  lemma AddedMore(v: View, u: View, w: View, ks: seq<Key>, id: nat)
    requires Added(v, u, ks, id) && MoreLocks(u, w)
    ensures Added(v, w, ks, id)
  {
    hide EidKeys, SiteAt, MappKeys, WithInfo;
    MoreLocksSameEids(u, w);
    LocksAddNoMapping(u, w);
  }

  lemma AddedOne(v: View, u: View, ks: seq<Key>, k: Key, id: nat)
    requires Canonical(u) && Added(v, u, ks, id) && MatchOf(u, k) in u
    ensures Added(v, AfterElement(u, k, id), ks + [k], id)
  {
    hide Canonical, AfterEid, Grown, LocksGrow, MoreLocks, MatchOf, Bumped, Added;
    LockIsGet(u, MatchOf(u, k));
    BumpIsMore(u, Touched(u, k), MatchOf(u, k));
    AddedMore(v, u, Touched(u, k), ks, id);
    AddedEid(v, Touched(u, k), ks, k, id);
  }

  lemma AddedEid(v: View, u: View, ks: seq<Key>, k: Key, id: nat)
    requires Canonical(u) && Added(v, u, ks, id)
    ensures Added(v, AfterEid(u, k, id), ks + [k], id)
  {
    hide Canonical, AfterEid, Grown, LocksGrow, MappKeys, WithInfo;
    EidEntered(u, k, id);
    EidAddsNoMapping(u, k, id);
    var w := AfterEid(u, k, id);
    GrownStep(v, u, w, ks, k, id);
    GrowTransitive(v, u, w);
    LocksAbove(u, w, ks);
  }

  lemma LocksAbove(u: View, w: View, ks: seq<Key>)
    requires LocksGrow(u, w) && forall k | k in ks :: k in u && u[k].lock > 0
    ensures forall k | k in ks :: k in w && w[k].lock > 0
  {
  }

  /** All elements of a site, as long as the test accepts them. */
  ghost function Elements(v: Pair, ps: seq<Prefix>, id: nat): Option<Pair>
    decreases |ps|
  {
    if ps == [] then Some(v)
    else if !Acceptable(v.Of(ps[0].family), KeyOf(ps[0])) then None
    else Elements(AfterOne(v, ps[0], id), ps[1..], id)
  }

  ghost function AfterOne(v: Pair, p: Prefix, id: nat): (w: Pair)
    ensures w.Of(p.family) == AfterElement(v.Of(p.family), KeyOf(p), id)
    ensures forall f | f != p.family :: w.Of(f) == v.Of(f)
  {
    if p.family == IPv4 then v.(four := AfterElement(v.four, KeyOf(p), id))
    else v.(six := AfterElement(v.six, KeyOf(p), id))
  }

  lemma SamePair(v: Pair, w: Pair)
    requires forall f :: v.Of(f) == w.Of(f)
    ensures v == w
  {
    assert v.Of(IPv4) == w.Of(IPv4) && v.Of(IPv6) == w.Of(IPv6);
  }

  /** One element has changed the table of its family. */
  ghost predicate Stepped(v: Pair, w: Pair, p: Prefix, id: nat) {
    w.Of(p.family) == AfterElement(v.Of(p.family), KeyOf(p), id) && forall f | f != p.family :: w.Of(f) == v.Of(f)
  }

  lemma ElementsStep(v: Pair, w: Pair, ps: seq<Prefix>, i: nat, id: nat)
    requires i < |ps|
    requires Acceptable(v.Of(ps[i].family), KeyOf(ps[i])) ==> Stepped(v, w, ps[i], id)
    ensures Elements(v, ps[i..], id)
      == if Acceptable(v.Of(ps[i].family), KeyOf(ps[i])) then Elements(w, ps[i + 1..], id) else None
  {
    hide KeyOf, Acceptable, AfterElement, AfterOne;
    assert ps[i..][0] == ps[i] && ps[i..][1..] == ps[i + 1..];
    if Acceptable(v.Of(ps[i].family), KeyOf(ps[i])) {
      SamePair(AfterOne(v, ps[i], id), w);
    }
  }

  /** The `delegated_eid_prefix` elements of a site. */
  method AddEids(d: Db, ps: seq<Prefix>, id: nat) returns (eids: Option<seq<Node>>)
    requires Ready(d)
    modifies d.four`top, d.four`count, d.four`shape, d.four`view, d.four.shape.Keys
    modifies d.six`top, d.six`count, d.six`shape, d.six`view, d.six.shape.Keys
    ensures Ready(d) && (eids == None <==> Elements(old(Contents(d)), ps, id) == None)
    ensures eids.Some? ==> Elements(old(Contents(d)), ps, id) == Some(Contents(d))
    ensures eids.Some? ==> forall n | n in eids.value :: n in d.Of(n.p.family).shape
    ensures eids.Some? ==> forall f :: FamilyKeys(eids.value, f) == KeysOfPrefixes(ps, f)
    ensures eids.Some? ==> forall f :: Added(old(Contents(d)).Of(f), Contents(d).Of(f), KeysOfPrefixes(ps, f), id)
    ensures forall f, n | n in d.Of(f).shape :: n in old(d.Of(f).shape) || fresh(n)
    ensures forall f, n | n in old(d.Of(f).shape) :: n in d.Of(f).shape
  {
    hide Standing, KeyOf, Canonical, AfterElement, Added, FamilyKeys, KeysOfPrefixes, Elements, Acceptable, MatchOf;
    var found: seq<Node> := [];
    ghost var v := Contents(d);
    ListsStart(v, id);
    assert ps[0..] == ps;
    for i := 0 to |ps|
      invariant Ready(d) && forall n | n in found :: n in d.Of(n.p.family).shape
      invariant forall f :: FamilyKeys(found, f) == KeysOfPrefixes(ps[..i], f)
      invariant forall f :: Added(v.Of(f), Contents(d).Of(f), FamilyKeys(found, f), id)
      invariant Elements(v, ps, id) == Elements(Contents(d), ps[i..], id)
      invariant forall f, n | n in d.Of(f).shape :: n in old(d.Of(f).shape) || fresh(n)
      invariant forall f, n | n in old(d.Of(f).shape) :: n in d.Of(f).shape
    {
      ghost var u, g := Contents(d), ps[i].family;
      assert d.Of(IPv4) == d.four && d.Of(IPv6) == d.six;
      StandingCanonical(d.Of(g));
      var node := AddEidIn(d, ps[i], id);
      ElementsStep(u, Contents(d), ps, i, id);
      if node == null {
        return None;
      }
      AddedOne(v.Of(g), u.Of(g), FamilyKeys(found, g), KeyOf(ps[i]), id);
      forall f: Family ensures FamilyKeys(found + [node], f) == KeysOfPrefixes(ps[..i + 1], f)
        && FamilyKeys(found + [node], f) == if f == g then FamilyKeys(found, f) + [node.key] else FamilyKeys(found, f) {
        NodeKeysStep(found, node, f);
        PrefixKeysStep(ps, i, f);
      }
      found := found + [node];
    }
    assert ps[..|ps|] == ps;
    NoElements(Contents(d), ps[|ps|..], id);
    eids := Some(found);
  }

  lemma NoElements(v: Pair, ps: seq<Prefix>, id: nat)
    requires ps == []
    ensures Elements(v, ps, id) == Some(v)
  {
  }

  lemma ListsStart(v: Pair, id: nat)
    ensures forall f :: FamilyKeys([], f) == KeysOfPrefixes([], f) == []
    ensures forall f :: Added(v.Of(f), v.Of(f), FamilyKeys([], f), id)
  {
    hide Added;
    forall f: Family ensures Added(v.Of(f), v.Of(f), FamilyKeys([], f), id) {
      AddedNone(v.Of(f), id);
    }
  }

  lemma ServingGrown(s: Links, t: Links, v: View, w: View, f: Family, sites: seq<Site>, site: Site)
    requires ServingIn(s, v, f, sites) && Apart(v, FamilyKeys(site.eids, f))
    requires Added(v, w, FamilyKeys(site.eids, f), |sites|)
    requires (forall n | n in s :: n in t) && forall n | n in site.eids && n.p.family == f :: n in t
    ensures ServingIn(t, w, f, sites + [site])
  {
    hide FamilyKeys, Configured, SiteKeys, Grown, LocksGrow, Apart, Disjoint, EidKeys, SitesKnown;
    var ks, id := FamilyKeys(site.eids, f), |sites|;
    GrownDisjoint(v, w, ks, id);
    GrownConfigured(v, w, ks, id);
    NewSiteKeys(v, w, ks, id);
    forall i | 0 <= i < id + 1 ensures Owns(t, w, f, (sites + [site])[i].eids, i) {
      if i < id {
        OldStays(v, w, ks, id, FamilyKeys(sites[i].eids, f), i);
      }
    }
  }

  lemma KeysAfterAdding(v: View, w: View, ks: seq<Key>, id: nat)
    requires Added(v, w, ks, id)
    ensures EidKeys(w) == EidKeys(v) + SetOf(ks) && SameMappings(v, w)
  {
  }

  /** A prefix configured before still points to its site. */
  lemma OldSite(s: Links, t: Links, v: View, w: View, f: Family, sites: seq<Site>, site: Site, e: Key)
    requires ServingIn(s, v, f, sites) && ServingIn(t, w, f, sites + [site])
    requires e in EidKeys(v) && e in EidKeys(w)
    ensures SiteAt(w, e).Some? && SiteAt(w, e).value < |sites|
  {
    hide FamilyKeys, LocksGrow, EidKeys, SiteAt, Configured, Disjoint;
    var i := SiteAt(v, e).value;
    assert Owns(s, v, f, sites[i].eids, i) && (sites + [site])[i] == sites[i];
    assert e in FamilyKeys(sites[i].eids, f);
    assert Owns(t, w, f, sites[i].eids, i);
  }

  /** Prefixes that overlap break what was set up. */
  lemma ServingApart(s: Links, t: Links, v: View, w: View, f: Family, sites: seq<Site>, site: Site)
    requires ServingIn(s, v, f, sites) && ServingIn(t, w, f, sites + [site])
    requires Added(v, w, FamilyKeys(site.eids, f), |sites|)
    ensures Apart(v, FamilyKeys(site.eids, f))
  {
    hide FamilyKeys, LocksGrow, EidKeys, SiteAt;
    var ks, id := FamilyKeys(site.eids, f), |sites|;
    assert (sites + [site])[id] == site;
    assert Owns(t, w, f, (sites + [site])[id].eids, id);
    forall k, e | k in ks && e in EidKeys(v) ensures !Overlap(e, k) {
      assert e in EidKeys(w) && k in EidKeys(w);
      OldSite(s, t, v, w, f, sites, site, e);
      assert SiteAt(w, k) == Some(id) && e != k;
    }
  }

  /** One table serves the new site as well exactly when its prefixes are disjoint from all others. */
  lemma ServingIffApart(s: Links, t: Links, v: View, w: View, f: Family, sites: seq<Site>, site: Site)
    requires ServingIn(s, v, f, sites) && Added(v, w, FamilyKeys(site.eids, f), |sites|)
    requires (forall n | n in s :: n in t) && forall n | n in site.eids && n.p.family == f :: n in t
    ensures ServingIn(t, w, f, sites + [site]) <==> Apart(v, FamilyKeys(site.eids, f))
  {
    hide ServingIn, FamilyKeys, Apart, Added;
    if Apart(v, FamilyKeys(site.eids, f)) {
      ServingGrown(s, t, v, w, f, sites, site);
    }
    if ServingIn(t, w, f, sites + [site]) {
      ServingApart(s, t, v, w, f, sites, site);
    }
  }

  function With(sites: seq<Site>, site: Site): seq<Site> {
    sites + [site]
  }

  lemma KeyAdded(sites: seq<Site>, site: Site)
    requires Keyring(sites) && Terminated(site.key) && forall s | s in sites :: s != site && s.key != site.key
    ensures Keyring(With(sites, site))
  {
  }

  /** A `site` element; none if the program ends. What every Map-Register needs still holds exactly
      when the prefixes of the site are disjoint from each other and from all others; the source
      does not test this. */
  method AddSite(d: Db, ghost sites: seq<Site>, key: Bytes, ps: seq<Prefix>, id: nat) returns (site: Site?)
    requires Serving(d, sites) && Keyring(sites) && id == |sites|
    modifies d.four, d.six, d.four.shape.Keys, d.six.shape.Keys
    ensures site == null <==> Elements(old(Contents(d)), ps, id) == None
    ensures site != null ==> Elements(old(Contents(d)), ps, id) == Some(Contents(d))
    ensures site != null ==> fresh(site) && fresh(site.key) && site.key.Length == |key| + 1
    ensures site != null ==> site.State() == SiteState(KeyLoss.Str(key), None) && Keyring(With(sites, site))
    ensures site != null ==> forall f :: FamilyKeys(site.eids, f) == KeysOfPrefixes(ps, f)
    ensures site != null ==> (Serving(d, With(sites, site)) <==>
      Apart(old(d.four.view), KeysOfPrefixes(ps, IPv4)) && Apart(old(d.six.view), KeysOfPrefixes(ps, IPv6)))
    ensures site != null ==>
      forall f :: EidKeys(Contents(d).Of(f)) == EidKeys(old(Contents(d)).Of(f)) + SetOf(KeysOfPrefixes(ps, f))
    ensures site != null ==> forall f :: SameMappings(old(Contents(d)).Of(f), Contents(d).Of(f))
    ensures forall f, n | n in d.Of(f).shape :: n in old(d.Of(f).shape) || fresh(n)
  {
    hide Standing, ServingIn, Apart, Added, FamilyKeys, KeysOfPrefixes, EidKeys, SetOf, Elements, Keyring, KeyLoss.Str,
      SameMappings;
    ghost var v, s4, s6 := Contents(d), d.four.shape, d.six.shape;
    var eids := AddEids(d, ps, id);
    if eids == None {
      return null;
    }
    site := new Site(key, eids.value);
    KeyAdded(sites, site);
    assert d.Of(IPv4) == d.four && d.Of(IPv6) == d.six && Contents(d).Of(IPv4) == d.four.view;
    assert Contents(d).Of(IPv6) == d.six.view && v.Of(IPv4) == v.four && v.Of(IPv6) == v.six;
    forall f: Family ensures EidKeys(Contents(d).Of(f)) == EidKeys(v.Of(f)) + SetOf(KeysOfPrefixes(ps, f))
      && SameMappings(v.Of(f), Contents(d).Of(f)) {
      KeysAfterAdding(v.Of(f), Contents(d).Of(f), KeysOfPrefixes(ps, f), id);
    }
    ServingIffApart(s4, d.four.shape, v.four, d.four.view, IPv4, sites, site);
    ServingIffApart(s6, d.six.shape, v.six, d.six.view, IPv6, sites, site);
  }

  /** The empty map server. */
  method NewServer() returns (d: Db)
    ensures Serving(d, []) && fresh(d.four) && fresh(d.six) && Contents(d) == Pair(EMPTY, EMPTY)
    ensures forall f :: EidKeys(Contents(d).Of(f)) == {}
    ensures forall f, n | n in d.Of(f).shape :: fresh(n)
  {
    hide Trie, Size, ConsistentBut, Holds, Stored;
    var four := NewDb(IPv4);
    var six := NewDb(IPv6);
    d := Db(four, six);
  }

  // ---------- when a site is touched by another ----------

  lemma {:induction false} RecordsKeepEids(v: View, rs: seq<Rec>)
    requires Canonical(v) && forall r | r in rs :: Registering(r)
    ensures SameEids(v, AfterRecords(v, rs))
    decreases |rs|
  {
    hide Canonical, AfterRecord, Registering;
    if rs != [] {
      var u := AfterRecord(v, rs[0]);
      RecordCanonical(v, rs[0]);
      RecordKinds(v, rs[0]);
      RecordsKeepEids(u, rs[1..]);
    }
  }

  /** Every configured prefix survives the update of a site, whatever its records, exactly when none
      lies strictly below a prefix of that site. */
  lemma EidsSurvive(v: View, ks: seq<Key>, rs: seq<Rec>)
    requires Canonical(v) && Configured(v, ks) && forall r | r in rs :: Registering(r)
    ensures Cleanable(v, ks)
    ensures EidKeys(AfterRegister(v, ks, rs)) == EidKeys(v) <==> forall x | x in EidKeys(v) :: !BelowAny(ks, x)
  {
    hide Canonical, Configured, BelowAny, AfterCleanAll, Cleanable, AfterRecords, Registering;
    CleanedIsCleaned(v, ks);
    var w := AfterCleanAll(v, ks);
    RecordsKeepEids(w, rs);
    forall x | x in w ensures IsEid(w[x]) == IsEid(v[x]) {
    }
  }

  /** A table of `ms_init_db`, then a site for all prefixes that begin with a one, then another for
      those that begin with two. */
  const EMPTY: View := map[[] := Entry(1, None, Some(ROOT))]

  ghost function Outer(): View {
    AfterElement(EMPTY, [true], 0)
  }

  ghost function Nested(): View {
    AfterElement(Outer(), [true, true], 1)
  }

  lemma EmptyCanonical()
    ensures Canonical(EMPTY) && EidKeys(EMPTY) == {}
  {
    hide Meets;
    OnlyMeet([]);
    assert Locked(EMPTY) == {[]};
  }

  lemma EmptyAccepts(k: Key)
    ensures MatchOf(EMPTY, k) == [] && Acceptable(EMPTY, k)
  {
    hide MatchOf, Delegates, Flagged;
    MatchIs(EMPTY, k, []);
    FlaggedStored(EMPTY);
    assert IsLongest(Flagged(EMPTY) + {[]}, [], Some([]));
  }

  lemma FlaggedStored(v: View)
    ensures Flagged(v) <= v.Keys
  {
  }

  /** The keys of a table do not get longer than what is asked for. */
  lemma ElementKeys(v: View, k: Key, id: nat, n: nat)
    requires Canonical(v) && MatchOf(v, k) in v && (forall x | x in v :: |x| <= n) && |k| <= n
    ensures forall x | x in AfterElement(v, k, id) :: |x| <= n
    ensures Canonical(AfterElement(v, k, id)) && Added(v, AfterElement(v, k, id), [k], id)
  {
    hide Canonical, Meets, MatchOf, Bumped, Locked, Added, AfterGet;
    AddedNone(v, id);
    AddedOne(v, v, [], k, id);
    assert [] + [k] == [k];
    LockIsGet(v, MatchOf(v, k));
    var u := Touched(v, k);
    EidEntered(u, k, id);
    GetKeys(u, k);
    LockedStored(u);
    forall x | x in Meets(Locked(u) + {k}) ensures |x| <= n {
      MeetIsShort(Locked(u) + {k}, x, n);
    }
  }

  lemma LockedStored(v: View)
    ensures Locked(v) <= v.Keys
  {
  }

  lemma MeetIsShort(s: set<Key>, x: Key, n: nat)
    requires x in Meets(s) && forall y | y in s :: |y| <= n
    ensures |x| <= n
  {
    hide Lcp;
  }

  /** The configuration accepts the nested site. */
  lemma NestedAccepted()
    ensures Acceptable(EMPTY, [true]) && Acceptable(Outer(), [true, true])
    ensures Canonical(Nested()) && [true, true] in EidKeys(Nested()) && Configured(Nested(), [[true]])
  {
    hide AfterElement, Canonical, Locked, Bumped;
    EmptyCanonical();
    EmptyAccepts([true]);
    ElementKeys(EMPTY, [true], 0, 1);
    var k: Key, kk: Key := [true], [true, true];
    assert k in Outer() && IsEid(Outer()[k]) by {
      assert k in [k] && k in SetOf([k]) && k in EidKeys(Outer());
    }
    assert IsLongest(Outer().Keys, kk, Some(k));
    MatchIs(Outer(), kk, k);
    assert IsLongest(Flagged(Outer()) + {[]}, k, Some(k)) && Delegates(Outer(), k);
    ElementKeys(Outer(), kk, 1, 2);
    assert kk in [kk] && kk in SetOf([kk]);
    NestedLocked();
  }

  lemma NestedLocked()
    requires Added(EMPTY, Outer(), [[true]], 0) && Added(Outer(), Nested(), [[true, true]], 1)
    ensures Configured(Nested(), [[true]])
  {
    hide AfterElement;
    var k: Key := [true];
    assert k in [k] && k in SetOf([k]) && k in EidKeys(Outer()) && k in EidKeys(Nested());
  }

  /** Every update of the outer site takes the inner site's prefix out of the table. */
  lemma NestedIsLost(rs: seq<Rec>)
    requires forall r | r in rs :: Registering(r)
    ensures [true, true] in EidKeys(Nested()) && Cleanable(Nested(), [[true]])
    ensures [true, true] !in EidKeys(AfterRegister(Nested(), [[true]], rs))
  {
    hide Nested, Canonical, Configured, AfterCleanAll, Cleanable, AfterRecords, Registering;
    NestedAccepted();
    var ks: seq<Key>, kk: Key := [[true]], [true, true];
    CleanedIsCleaned(Nested(), ks);
    RecordsKeepEids(AfterCleanAll(Nested(), ks), rs);
    assert ks[0] in ks && ks[0] < kk && BelowAny(ks, kk);
  }
}
