/** `struct lisp_db`: a table for each address family. A Map-Register may name prefixes of both;
    here are the loops of udp.c that go from one table to the other. */
module Databases {
  import opened Types
  import opened Bits
  import opened Prefixes
  import opened Views
  import opened Shapes
  import opened Theory
  import opened Tries
  import opened Lookups
  import opened Registers
  import opened MapServer

  datatype Db = Db(four: Table, six: Table) {
    /** `ms_get_db_table`. */
    function Of(f: Family): Table {
      if f == IPv4 then four else six
    }
  }

  /** The contents of both tables. */
  datatype Pair = Pair(four: View, six: View) {
    ghost function Of(f: Family): View {
      if f == IPv4 then four else six
    }
  }

  ghost function Contents(d: Db): Pair
    reads d.four`view, d.six`view
  {
    Pair(d.four.view, d.six.view)
  }

  /** Well-formed, with the root on top. */
  ghost predicate Standing(t: Table)
    reads t, t.shape.Keys
  {
    t.Valid() && t.top != null && t.top.key == []
  }

  ghost predicate Ready(d: Db)
    reads d.four, d.six, d.four.shape.Keys, d.six.shape.Keys
  {
    d.four.family == IPv4 && d.six.family == IPv6 && Standing(d.four) && Standing(d.six)
  }

  lemma NodesApart(d: Db)
    requires Ready(d)
    ensures d.four != d.six && d.four.shape.Keys !! d.six.shape.Keys
    ensures forall f: Family, n | n in d.Of(f).shape :: n.p.family == f
  {
    hide Shape;
  }

  ghost predicate LocksOnly(v: Pair, w: Pair) {
    MoreLocks(v.four, w.four) && MoreLocks(v.six, w.six)
  }

  lemma LocksOnlySelf(v: Pair)
    ensures LocksOnly(v, v)
  {
  }

  lemma LocksOnlyTransitive(u: Pair, v: Pair, w: Pair)
    requires LocksOnly(u, v) && LocksOnly(v, w)
    ensures LocksOnly(u, w)
  {
    MoreLocksTransitive(u.four, v.four, w.four);
    MoreLocksTransitive(u.six, v.six, w.six);
  }

  // ---------- validation ----------

  /** `_ms_validate_eid`. */
  method ValidateIn(d: Db, p: Prefix) returns (site: Option<nat>)
    requires Ready(d)
    modifies d.four`view, d.six`view, d.four.shape.Keys`entry, d.six.shape.Keys`entry
    ensures Ready(d) && LocksOnly(old(Contents(d)), Contents(d))
    ensures SiteOf(old(Contents(d)).Of(p.family), KeyOf(p), site)
  {
    hide KeyOf, Trie, Size, ConsistentBut, Holds, Stored, SiteOf, MoreLocks;
    NodesApart(d);
    MoreLocksSelf(d.four.view);
    MoreLocksSelf(d.six.view);
    if p.family == IPv4 {
      site := ValidateEid(d.four, p);
    } else {
      site := ValidateEid(d.six, p);
    }
  }

  lemma MoreLocksSelf(v: View)
    ensures MoreLocks(v, v)
  {
  }

  /** Every address prefix belongs to the site. */
  ghost predicate AllOf(v: Pair, ps: seq<Prefix>, site: nat) {
    forall p | p in ps :: SiteOf(v.Of(p.family), KeyOf(p), Some(site))
  }

  /** Every configured prefix points to a site. */
  ghost predicate SitesKnown(v: View, n: nat) {
    forall k | k in EidKeys(v) :: SiteAt(v, k).Some? && SiteAt(v, k).value < n
  }

  lemma KnownSite(v: View, q: Key, site: nat, n: nat)
    requires SitesKnown(v, n) && SiteOf(v, q, Some(site))
    ensures site < n
  {
    var r :| IsLongest(EidKeys(v) - {[]}, q, r) && Some(site) == if r == None then None else SiteAt(v, r.value);
    assert r.value in EidKeys(v);
  }

  /** Each lookup is on a table with more locks, which knows the same sites. */
  lemma SiteBack(v: Pair, w: Pair, f: Family, q: Key, site: Option<nat>)
    requires LocksOnly(v, w) && SiteOf(w.Of(f), q, site)
    ensures SiteOf(v.Of(f), q, site)
  {
    hide SiteOf, MoreLocks, SameEids;
    MoreLocksSameEids(v.Of(f), w.Of(f));
    SameEidsBack(v.Of(f), w.Of(f));
    SiteStays(w.Of(f), v.Of(f), q, site);
  }

  lemma SameEidsBack(v: View, w: View)
    requires SameEids(v, w)
    ensures SameEids(w, v)
  {
  }

  lemma NotAllOf(v: Pair, ps: seq<Prefix>, i: nat, found: Option<nat>, s: nat)
    requires i < |ps| && SiteOf(v.Of(ps[i].family), KeyOf(ps[i]), found) && found != Some(s)
    ensures !AllOf(v, ps, s)
  {
    if AllOf(v, ps, s) {
      SiteUnique(v.Of(ps[i].family), KeyOf(ps[i]), found, Some(s));
    }
  }

  lemma AllOfStep(v: Pair, ps: seq<Prefix>, i: nat, s: nat)
    requires i < |ps| && (i > 0 ==> AllOf(v, ps[..i], s)) && SiteOf(v.Of(ps[i].family), KeyOf(ps[i]), Some(s))
    ensures AllOf(v, ps[..i + 1], s)
  {
    hide SiteOf, KeyOf;
    assert forall p | p in ps[..i + 1] :: p in ps[..i] || p == ps[i];
  }

  /** The record loop of `_ms_validate_register`: all prefixes must belong to one site. */
  method OneSite(d: Db, ps: seq<Prefix>) returns (site: Option<nat>)
    requires Ready(d)
    modifies d.four`view, d.six`view, d.four.shape.Keys`entry, d.six.shape.Keys`entry
    ensures Ready(d) && LocksOnly(old(Contents(d)), Contents(d))
    ensures site.Some? ==> ps != [] && AllOf(old(Contents(d)), ps, site.value)
    ensures site.None? ==> ps == [] || forall s: nat :: !AllOf(old(Contents(d)), ps, s)
  {
    hide Standing, SiteOf, KeyOf, LocksOnly, AllOf;
    site := None;
    ghost var v := Contents(d);
    LocksOnlySelf(v);
    var i := 0;
    while i < |ps|
      invariant 0 <= i <= |ps| && Ready(d) && LocksOnly(v, Contents(d))
      invariant if i == 0 then site == None
        else site.Some? && AllOf(v, ps[..i], site.value) && SiteOf(v.Of(ps[0].family), KeyOf(ps[0]), site)
    {
      ghost var u := Contents(d);
      var found := ValidateIn(d, ps[i]);
      SiteBack(v, u, ps[i].family, KeyOf(ps[i]), found);
      LocksOnlyTransitive(v, u, Contents(d));
      if found == None || (site.Some? && site != found) {
        forall s: nat ensures !AllOf(v, ps, s) {
          if found != Some(s) {
            NotAllOf(v, ps, i, found, s);
          } else {
            NotAllOf(v, ps, 0, site, s);
          }
        }
        return None;
      }
      site := found;
      AllOfStep(v, ps, i, site.value);
      i := i + 1;
    }
    assert ps[..|ps|] == ps;
  }

  lemma SiteInRange(v: Pair, ps: seq<Prefix>, s: nat, n: nat)
    requires ps != [] && AllOf(v, ps, s) && SitesKnown(v.four, n) && SitesKnown(v.six, n)
    ensures s < n
  {
    assert ps[0] in ps;
    KnownSite(v.Of(ps[0].family), KeyOf(ps[0]), s, n);
  }

  lemma OnlySite(v: Pair, ps: seq<Prefix>, a: nat, b: nat)
    requires ps != [] && AllOf(v, ps, a) && AllOf(v, ps, b)
    ensures a == b
  {
    assert ps[0] in ps;
    SiteUnique(v.Of(ps[0].family), KeyOf(ps[0]), Some(a), Some(b));
  }

  /** Every site has its own record and its own key, which is a string. */
  ghost predicate Keyring(sites: seq<Site>)
    reads set s | s in sites :: s.key
  {
    && (forall i, j | 0 <= i < j < |sites| :: sites[i] != sites[j] && sites[i].key != sites[j].key)
    && (forall s | s in sites :: Terminated(s.key))
  }

  ghost function States(sites: seq<Site>): (r: seq<SiteState>)
    reads sites, set s | s in sites :: s.key
    ensures |r| == |sites| && forall i | 0 <= i < |sites| :: r[i] == sites[i].State()
  {
    seq(|sites|, i requires 0 <= i < |sites| reads sites, set s | s in sites :: s.key => sites[i].State())
  }

  /** The answer of the validation, and what it leaves of the sites, for all messages: the site that all
      prefixes belong to decides; without such a site the answer is -1; no other site changes. */
  ghost predicate Decided(v: Pair, before: seq<SiteState>, after: seq<SiteState>, ps: seq<Prefix>,
                          pk: RegisterMessage, rt: int, site: nat)
    requires |pk.auth| <= 20
  {
    && |after| == |before| && rt in {-1, 0, 1}
    && (rt >= 0 ==> ps != [] && site < |before| && AllOf(v, ps, site))
    && (forall s: nat | s < |before| && ps != [] && AllOf(v, ps, s) ::
          rt == Verdict(before[s], pk) && after[s] == AfterCompare(before[s], pk) && (rt >= 0 ==> site == s))
    && (forall s: nat | s < |before| && !(ps != [] && AllOf(v, ps, s)) :: after[s] == before[s])
  }

  /** `_ms_validate_register`: -1 for a message to ignore, 0 for one that is known, 1 for an
      update, whose hash is then stored. */
  method ValidateRegister(d: Db, sites: seq<Site>, ps: seq<Prefix>, pk: RegisterMessage) returns (rt: int, site: nat)
    requires Ready(d) && SitesKnown(d.four.view, |sites|) && SitesKnown(d.six.view, |sites|) && |pk.auth| <= 20
    requires Keyring(sites) && forall s | s in sites :: s.key.Length + 128 <= 0x1_0000_0000
    requires |Blank(pk, true)| + 64 <= 0x1_0000_0000
    modifies d.four`view, d.six`view, d.four.shape.Keys`entry, d.six.shape.Keys`entry
    modifies sites, set s | s in sites :: s.key
    ensures Ready(d) && LocksOnly(old(Contents(d)), Contents(d)) && Keyring(sites)
    ensures Decided(old(Contents(d)), old(States(sites)), States(sites), ps, pk, rt, site)
  {
    hide Standing, LocksOnly, AllOf, Blank, SitesKnown, Verdict, AfterCompare, Decided, Keyring;
    site := 0;
    ghost var v, before := Contents(d), States(sites);
    var found := OneSite(d, ps);
    if found == None {
      DecidedByNone(v, before, ps, pk);
      return -1, 0;
    }
    site := found.value;
    SiteInRange(v, ps, site, |sites|);
    rt := CompareAt(sites, site, pk);
    DecidedByOne(v, before, ps, pk, site);
  }

  lemma DecidedByNone(v: Pair, before: seq<SiteState>, ps: seq<Prefix>, pk: RegisterMessage)
    requires |pk.auth| <= 20 && (ps == [] || forall s: nat :: !AllOf(v, ps, s))
    ensures Decided(v, before, before, ps, pk, -1, 0)
  {
  }

  lemma DecidedByOne(v: Pair, before: seq<SiteState>, ps: seq<Prefix>, pk: RegisterMessage, site: nat)
    requires |pk.auth| <= 20 && ps != [] && site < |before| && AllOf(v, ps, site)
    ensures Decided(v, before, before[site := AfterCompare(before[site], pk)], ps, pk, Verdict(before[site], pk), site)
  {
    hide AllOf, AfterCompare, Known, Authentic;
    forall s: nat | AllOf(v, ps, s) ensures s == site {
      OnlySite(v, ps, s, site);
    }
  }

  /** The site that was found decides, and only its record changes. */
  method CompareAt(sites: seq<Site>, site: nat, pk: RegisterMessage) returns (rt: int)
    requires Keyring(sites) && site < |sites| && |pk.auth| <= 20
    requires sites[site].key.Length + 128 <= 0x1_0000_0000 && |Blank(pk, true)| + 64 <= 0x1_0000_0000
    modifies sites[site], sites[site].key
    ensures Keyring(sites) && rt == Verdict(old(States(sites))[site], pk)
    ensures States(sites) == old(States(sites))[site := AfterCompare(old(States(sites))[site], pk)]
  {
    hide Blank, Verdict, AfterCompare, Terminated;
    rt := Compare(sites[site], pk);
  }

  // ---------- cleaning ----------

  ghost function KeysIn(ns: seq<Node>): (ks: seq<Key>)
    ensures |ks| == |ns| && forall i | 0 <= i < |ns| :: ks[i] == ns[i].key
  {
    seq(|ns|, i requires 0 <= i < |ns| => ns[i].key)
  }

  /** The nodes of one of the two tables. */
  ghost function OfFamily(ns: seq<Node>, f: Family): (r: seq<Node>)
    ensures forall n | n in r :: n in ns && n.p.family == f
    ensures forall n | n in ns && n.p.family == f :: n in r
  {
    if ns == [] then []
    else (if ns[0].p.family == f then [ns[0]] else []) + OfFamily(ns[1..], f)
  }

  ghost function FamilyKeys(ns: seq<Node>, f: Family): seq<Key> {
    KeysIn(OfFamily(ns, f))
  }

  lemma FamilyKeysStep(ns: seq<Node>, f: Family)
    requires ns != []
    ensures ns[0].p.family != f ==> FamilyKeys(ns, f) == FamilyKeys(ns[1..], f)
    ensures ns[0].p.family == f ==> FamilyKeys(ns, f) != [] && FamilyKeys(ns, f)[0] == ns[0].key
    ensures ns[0].p.family == f ==> FamilyKeys(ns, f)[1..] == FamilyKeys(ns[1..], f)
  {
    hide KeysIn;
    var rest := OfFamily(ns[1..], f);
    if ns[0].p.family == f {
      assert OfFamily(ns, f) == [ns[0]] + rest;
      KeysPrepend(ns[0], rest);
    } else {
      assert OfFamily(ns, f) == [] + rest == rest;
    }
  }

  lemma KeysPrepend(n: Node, ns: seq<Node>)
    ensures KeysIn([n] + ns) == [n.key] + KeysIn(ns)
  {
  }

  lemma KeyInFamily(ns: seq<Node>, n: Node)
    requires n in ns
    ensures n.key in FamilyKeys(ns, n.p.family)
  {
    var r := OfFamily(ns, n.p.family);
    var i :| 0 <= i < |r| && r[i] == n;
    assert KeysIn(r)[i] == n.key;
  }

  /** One node of a site. */
  method CleanIn(d: Db, node: Node)
    requires Ready(d) && node in d.Of(node.p.family).shape && node.entry.lock > 0
    modifies d.four`shape, d.four`lost, d.four`view, d.six`shape, d.six`lost, d.six`view, node`links, node`entry
    ensures Ready(d) && node.key in old(Contents(d).Of(node.p.family))
    ensures Contents(d).Of(node.p.family) == AfterClean(old(Contents(d).Of(node.p.family)), node.key)
    ensures forall f | f != node.p.family :: Contents(d).Of(f) == old(Contents(d).Of(f))
    ensures forall f, n | n in d.Of(f).shape :: n in old(d.Of(f).shape)
    ensures forall f, n | n in old(d.Of(f).shape) && (f == node.p.family ==> !(node.key < n.key)) :: n in d.Of(f).shape
  {
    hide KeyOf, Trie, Size, ConsistentBut, Holds, Stored, AfterClean;
    NodesApart(d);
    if node.p.family == IPv4 {
      CleanNode(d.four, node);
    } else {
      CleanNode(d.six, node);
    }
  }

  /** Half-way through the prefixes of a site. */
  ghost predicate Cleaning(v0: View, v: View, all: seq<Key>, rest: seq<Key>) {
    && Configured(v, rest) && (Cleanable(v0, all) <==> Cleanable(v, rest))
    && (Cleanable(v, rest) ==> AfterCleanAll(v0, all) == AfterCleanAll(v, rest))
  }

  lemma CleaningStep(v0: View, v: View, all: seq<Key>, rest: seq<Key>)
    requires Cleaning(v0, v, all, rest) && rest != []
    ensures rest[0] in v && v[rest[0]].lock > 0 && Cleaning(v0, AfterClean(v, rest[0]), all, rest[1..])
    ensures forall k | k in rest[1..] :: !(rest[0] < k)
  {
    hide AfterClean;
    ConfiguredRest(v, rest);
    FirstApart(v, rest);
  }

  lemma CleaningDone(v0: View, v: View, all: seq<Key>)
    requires Cleaning(v0, v, all, [])
    ensures Cleanable(v0, all) && v == AfterCleanAll(v0, all)
  {
  }

  lemma BelowOne(ks: seq<Key>, k: Key, x: Key)
    requires k in ks && k < x
    ensures BelowAny(ks, x)
  {
  }

  lemma NodeIsHeld(t: Table, n: Node)
    requires t.Valid() && n in t.shape
    ensures n.key in t.view && n.entry == t.view[n.key]
  {
    hide Trie, Size, ConsistentBut, Stored;
  }

  /** The same for both tables, after the first i nodes of the site. */
  ghost predicate CleaningBoth(v0: Pair, v: Pair, eids: seq<Node>, i: nat)
    requires i <= |eids|
  {
    forall f :: Cleaning(v0.Of(f), v.Of(f), FamilyKeys(eids, f), FamilyKeys(eids[i..], f))
  }

  lemma BothStart(v: Pair, eids: seq<Node>)
    requires forall f :: Configured(v.Of(f), FamilyKeys(eids, f))
    ensures CleaningBoth(v, v, eids, 0)
  {
    hide Configured, Cleaning, FamilyKeys;
    assert eids[0..] == eids;
    forall f: Family ensures Cleaning(v.Of(f), v.Of(f), FamilyKeys(eids, f), FamilyKeys(eids, f)) {
      CleaningStarts(v.Of(f), FamilyKeys(eids, f));
    }
  }

  lemma NodeSteps(eids: seq<Node>, i: nat, f: Family)
    requires i < |eids|
    ensures eids[i].p.family != f ==> FamilyKeys(eids[i..], f) == FamilyKeys(eids[i + 1..], f)
    ensures eids[i].p.family == f ==> FamilyKeys(eids[i..], f) != [] && FamilyKeys(eids[i..], f)[0] == eids[i].key
    ensures eids[i].p.family == f ==> FamilyKeys(eids[i..], f)[1..] == FamilyKeys(eids[i + 1..], f)
  {
    hide FamilyKeys;
    assert eids[i..][0] == eids[i] && eids[i..][1..] == eids[i + 1..];
    FamilyKeysStep(eids[i..], f);
  }

  lemma BothNext(v0: Pair, v: Pair, eids: seq<Node>, i: nat)
    requires i < |eids| && CleaningBoth(v0, v, eids, i)
    ensures eids[i].key in v.Of(eids[i].p.family) && v.Of(eids[i].p.family)[eids[i].key].lock > 0
    ensures forall j | i < j < |eids| && eids[j].p.family == eids[i].p.family :: !(eids[i].key < eids[j].key)
  {
    hide Cleaning, FamilyKeys;
    var g := eids[i].p.family;
    NodeSteps(eids, i, g);
    CleaningStep(v0.Of(g), v.Of(g), FamilyKeys(eids, g), FamilyKeys(eids[i..], g));
    forall j | i < j < |eids| && eids[j].p.family == g ensures !(eids[i].key < eids[j].key) {
      assert eids[i + 1..][j - i - 1] == eids[j];
      KeyInFamily(eids[i + 1..], eids[j]);
    }
  }

  lemma BothStep(v0: Pair, v: Pair, w: Pair, eids: seq<Node>, i: nat)
    requires i < |eids| && CleaningBoth(v0, v, eids, i) && eids[i].key in v.Of(eids[i].p.family)
    requires w.Of(eids[i].p.family) == AfterClean(v.Of(eids[i].p.family), eids[i].key)
    requires forall f | f != eids[i].p.family :: w.Of(f) == v.Of(f)
    ensures CleaningBoth(v0, w, eids, i + 1)
  {
    hide Cleaning, FamilyKeys, AfterClean;
    forall f: Family ensures Cleaning(v0.Of(f), w.Of(f), FamilyKeys(eids, f), FamilyKeys(eids[i + 1..], f)) {
      NodeSteps(eids, i, f);
      if f == eids[i].p.family {
        CleaningStep(v0.Of(f), v.Of(f), FamilyKeys(eids, f), FamilyKeys(eids[i..], f));
      }
    }
  }

  lemma BothDone(v0: Pair, v: Pair, eids: seq<Node>)
    requires CleaningBoth(v0, v, eids, |eids|)
    ensures forall f :: Cleanable(v0.Of(f), FamilyKeys(eids, f))
    ensures forall f :: v.Of(f) == AfterCleanAll(v0.Of(f), FamilyKeys(eids, f))
  {
    hide Cleaning, FamilyKeys, Cleanable;
    forall f: Family ensures Cleanable(v0.Of(f), FamilyKeys(eids, f))
      && v.Of(f) == AfterCleanAll(v0.Of(f), FamilyKeys(eids, f)) {
      NoKeys(eids[|eids|..], f);
      CleaningDone(v0.Of(f), v.Of(f), FamilyKeys(eids, f));
    }
  }

  /** `_ms_clean_site_mapping`. */
  method CleanSite(d: Db, eids: seq<Node>)
    requires Ready(d) && forall n | n in eids :: n in d.Of(n.p.family).shape
    requires forall f :: Configured(Contents(d).Of(f), FamilyKeys(eids, f))
    modifies d.four`shape, d.four`lost, d.four`view, d.six`shape, d.six`lost, d.six`view
    modifies d.four.shape.Keys`links, d.four.shape.Keys`entry, d.six.shape.Keys`links, d.six.shape.Keys`entry
    ensures Ready(d) && forall f :: Cleanable(old(Contents(d).Of(f)), FamilyKeys(eids, f))
    ensures forall f :: Contents(d).Of(f) == AfterCleanAll(old(Contents(d).Of(f)), FamilyKeys(eids, f))
    ensures forall f, n | n in d.Of(f).shape :: n in old(d.Of(f).shape)
    ensures forall f, n | n in old(d.Of(f).shape) && !BelowAny(FamilyKeys(eids, f), n.key) :: n in d.Of(f).shape
  {
    hide Standing, AfterClean, Configured, CleaningBoth, Cleanable, BelowAny, KeyOf, FamilyKeys;
    ghost var v0 := Contents(d);
    var i := 0;
    BothStart(v0, eids);
    while i < |eids|
      invariant 0 <= i <= |eids| && Ready(d) && CleaningBoth(v0, Contents(d), eids, i)
      invariant forall f, n | n in d.Of(f).shape :: n in old(d.Of(f).shape)
      invariant forall f, n | n in old(d.Of(f).shape) && !BelowAny(FamilyKeys(eids, f), n.key) :: n in d.Of(f).shape
      invariant forall j | i <= j < |eids| :: eids[j] in d.Of(eids[j].p.family).shape
    {
      ghost var v := Contents(d);
      BothNext(v0, v, eids, i);
      Held(d, eids[i]);
      NodesBelow(eids, eids[i]);
      assert d.Of(IPv4) == d.four && d.Of(IPv6) == d.six;
      label Before:
      CleanIn(d, eids[i]);
      assert d.Of(IPv4) == d.four && d.Of(IPv6) == d.six;
      BothStep(v0, v, Contents(d), eids, i);
      forall j | i < j < |eids| ensures eids[j] in d.Of(eids[j].p.family).shape {
        assert eids[j] in old@Before(d.Of(eids[j].p.family).shape);
      }
      i := i + 1;
    }
    BothDone(v0, Contents(d), eids);
  }

  lemma NodesBelow(eids: seq<Node>, node: Node)
    requires node in eids
    ensures forall k: Key | node.key < k :: BelowAny(FamilyKeys(eids, node.p.family), k)
  {
    hide BelowAny, FamilyKeys;
    KeyInFamily(eids, node);
    forall k: Key | node.key < k ensures BelowAny(FamilyKeys(eids, node.p.family), k) {
      BelowOne(FamilyKeys(eids, node.p.family), node.key, k);
    }
  }

  lemma NoKeys(ns: seq<Node>, f: Family)
    requires ns == []
    ensures FamilyKeys(ns, f) == []
  {
  }

  lemma CleaningStarts(v: View, ks: seq<Key>)
    requires Configured(v, ks)
    ensures Cleaning(v, v, ks, ks)
  {
  }

  lemma Held(d: Db, n: Node)
    requires Ready(d) && n in d.Of(n.p.family).shape
    ensures n.key in Contents(d).Of(n.p.family) && n.entry == Contents(d).Of(n.p.family)[n.key]
  {
    NodeIsHeld(d.Of(n.p.family), n);
  }
}
