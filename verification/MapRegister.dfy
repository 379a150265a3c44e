/** `_register` of udp.c: a Map-Register is validated, and an update replaces the mappings of its
    site. What holds between two messages is kept over any sequence of them. */
module MapRegister {
  import opened Types
  import opened Bits
  import opened Prefixes
  import opened Views
  import opened Shapes
  import opened Theory
  import opened Tries
  import opened Lookups
  import opened Registers
  import opened MapServer
  import opened Databases
  import KeyLoss
  import Sha1Spec

  /** A record as decoded; the fields are those of `map_reply_record`. */
  datatype MapRecord = MapRecord(eid: Prefix, locs: Locs, act: nat, auth: bool, version: nat, ttl: nat)

  /** The flags of `_ms_process_register_record`. */
  function FlagsOf(r: MapRecord, proxy: bool): Flags {
    Flags({Mapp}, r.act, r.auth, r.version, proxy, r.ttl, 0, false, None)
  }

  ghost function RecOf(r: MapRecord, proxy: bool): Rec {
    Rec(KeyOf(r.eid), Collect([], r.locs), FlagsOf(r, proxy))
  }

  /** The records that go to the table of a family. */
  ghost function RecsOf(rs: seq<MapRecord>, f: Family, proxy: bool): seq<Rec> {
    if rs == [] then []
    else (if rs[0].eid.family == f then [RecOf(rs[0], proxy)] else []) + RecsOf(rs[1..], f, proxy)
  }

  function Eids(rs: seq<MapRecord>): (ps: seq<Prefix>)
    ensures |ps| == |rs| && forall i | 0 <= i < |rs| :: ps[i] == rs[i].eid
  {
    seq(|rs|, i requires 0 <= i < |rs| => rs[i].eid)
  }

  ghost predicate HasKey(rs: seq<MapRecord>, f: Family, k: Key) {
    exists r :: r in rs && r.eid.family == f && KeyOf(r.eid) == k
  }

  /** A site's nodes in one table: they are there, locked, marked `_EID`, disjoint, and they are the
      nodes that point to the site. */
  ghost predicate Owns(s: Links, v: View, f: Family, eids: seq<Node>, site: nat) {
    && (forall n | n in eids && n.p.family == f :: n in s)
    && Configured(v, FamilyKeys(eids, f)) && SiteKeys(v, FamilyKeys(eids, f), site)
  }

  ghost predicate ServingIn(s: Links, v: View, f: Family, sites: seq<Site>) {
    && Disjoint(EidKeys(v)) && SitesKnown(v, |sites|)
    && forall i | 0 <= i < |sites| :: Owns(s, v, f, sites[i].eids, i)
  }

  /** What the configuration sets up and every Map-Register keeps. */
  ghost predicate Serving(d: Db, sites: seq<Site>)
    reads d.four, d.six, d.four.shape.Keys, d.six.shape.Keys
  {
    Ready(d) && ServingIn(d.four.shape, d.four.view, IPv4, sites) && ServingIn(d.six.shape, d.six.view, IPv6, sites)
  }

  /** One table before and after an update: the same, but for locks, outside the site's prefixes;
      inside, the mappings and the entries with locators are exactly those of the message, and what
      else there is carries nothing. */
  ghost predicate Replaced(v: View, w: View, ks: seq<Key>, rs: seq<MapRecord>, f: Family) {
    && (forall x | Inside(SetOf(ks), x) :: (x in w && IsMapping(w[x])) <==> HasKey(rs, f, x))
    && (forall x | Inside(SetOf(ks), x) :: (x in w && w[x].info != None) <==> HasKey(rs, f, x))
    && (forall x | Inside(SetOf(ks), x) && x in w && !HasKey(rs, f, x) :: Bare(v, w, ks, x))
    && (forall x | x in ks :: RolesAt(v, w, x))
    && (forall x | !Inside(SetOf(ks), x) :: x in v <==> x in w)
    && (forall x | !Inside(SetOf(ks), x) && x in v && x in w :: w[x] == v[x].(lock := w[x].lock))
  }

  /** A stored mapping by the fields of its record. */
  ghost predicate Stands(w: View, r: MapRecord, proxy: bool) {
    var k := KeyOf(r.eid);
    && k in w && w[k].info.Some? && Condensed(w[k].info.value, r.locs)
    && w[k].flags.Some? && FieldsOf(w[k].flags.value, r, proxy)
  }

  ghost predicate FieldsOf(g: Flags, r: MapRecord, proxy: bool) {
    && Mapp in g.range && g.act == r.act && g.auth == r.auth && g.version == r.version && g.ttl == r.ttl
    && g.proxy == proxy && g.referral == 0 && !g.incomplete
  }

  /** The last record for a prefix is what is stored there. */
  ghost predicate Carried(w: View, rs: seq<MapRecord>, f: Family, proxy: bool) {
    forall i: nat | IsLast(rs, f, i) :: Carries(w, RecOf(rs[i], proxy)) && Stands(w, rs[i], proxy)
  }

  lemma CarriesStands(w: View, r: MapRecord, proxy: bool)
    requires Carries(w, RecOf(r, proxy))
    ensures Stands(w, r, proxy)
  {
    hide KeyOf, Collect, Condensed;
    CollectCondenses(r.locs);
  }

  ghost predicate IsLast(rs: seq<MapRecord>, f: Family, i: nat) {
    i < |rs| && rs[i].eid.family == f
    && forall j | i < j < |rs| && rs[j].eid.family == f :: KeyOf(rs[j].eid) != KeyOf(rs[i].eid)
  }

  /** A message is the last update of a site: its prefixes belong to the site, its hash under the
      site's key is the one that is stored. */
  ghost predicate Current(v: Pair, s: SiteState, id: nat, rs: seq<MapRecord>, pk: RegisterMessage)
    requires |pk.auth| <= 20
  {
    rs != [] && AllOf(v, Eids(rs), id) && s.hashing == Some(Hashing(s.key, pk, true))
  }

  // ---------- what is kept ----------

  /** Configured prefixes stay locked. */
  ghost predicate EidLocks(v: View, w: View) {
    forall k | k in EidKeys(v) && v[k].lock > 0 :: k in w && w[k].lock > 0
  }

  lemma MoreLocksKeep(v: View, w: View)
    requires MoreLocks(v, w)
    ensures EidLocks(v, w) && SameEids(v, w)
  {
    MoreLocksSameEids(v, w);
  }

  lemma EidLocksTransitive(u: View, v: View, w: View)
    requires EidLocks(u, v) && EidLocks(v, w) && SameEids(u, v)
    ensures EidLocks(u, w)
  {
  }

  lemma SameEidsTransitive(u: View, v: View, w: View)
    requires SameEids(u, v) && SameEids(v, w)
    ensures SameEids(u, w)
  {
  }

  lemma ConfiguredStays(v: View, w: View, ks: seq<Key>)
    requires Configured(v, ks) && SameEids(v, w) && EidLocks(v, w)
    ensures Configured(w, ks)
  {
    forall k | k in ks ensures k in w && w[k].lock > 0 && IsEid(w[k]) {
      assert k in EidKeys(v);
      assert k in EidKeys(w);
    }
  }

  lemma SiteKeysStay(v: View, w: View, ks: seq<Key>, site: nat)
    requires SiteKeys(v, ks, site) && SameEids(v, w)
    ensures SiteKeys(w, ks, site)
  {
  }

  lemma KnownStays(v: View, w: View, n: nat)
    requires SitesKnown(v, n) && SameEids(v, w) && Disjoint(EidKeys(v))
    ensures SitesKnown(w, n) && Disjoint(EidKeys(w))
  {
  }

  lemma OwnsStays(s: Links, t: Links, v: View, w: View, f: Family, eids: seq<Node>, site: nat)
    requires Owns(s, v, f, eids, site) && SameEids(v, w) && EidLocks(v, w)
    requires forall n | n in eids && n.p.family == f :: n in t
    ensures Owns(t, w, f, eids, site)
  {
    hide Configured, SiteKeys, SameEids, EidLocks, FamilyKeys;
    ConfiguredStays(v, w, FamilyKeys(eids, f));
    SiteKeysStay(v, w, FamilyKeys(eids, f), site);
  }

  lemma AllOfStays(v: Pair, w: Pair, ps: seq<Prefix>, site: nat)
    requires AllOf(v, ps, site) && SameEids(v.four, w.four) && SameEids(v.six, w.six)
    ensures AllOf(w, ps, site)
  {
    hide SiteOf, SameEids, KeyOf;
    forall p | p in ps ensures SiteOf(w.Of(p.family), KeyOf(p), Some(site)) {
      SiteStays(v.Of(p.family), w.Of(p.family), KeyOf(p), Some(site));
    }
  }

  ghost predicate LocksGrow(v: View, w: View) {
    forall k | k in v :: k in w && w[k].lock >= v[k].lock
  }

  lemma RecordKeeps(v: View, r: Rec)
    requires Canonical(v)
    ensures LocksGrow(v, AfterRecord(v, r))
  {
    hide Canonical, AfterGet, AfterRecord;
    RecordParts(v, r);
  }

  lemma GrowTransitive(u: View, v: View, w: View)
    requires LocksGrow(u, v) && LocksGrow(v, w)
    ensures LocksGrow(u, w)
  {
  }

  lemma GrowSelf(v: View)
    ensures LocksGrow(v, v)
  {
  }

  lemma {:induction false} RecordsKeep(v: View, rs: seq<Rec>)
    requires Canonical(v)
    ensures LocksGrow(v, AfterRecords(v, rs))
    decreases |rs|
  {
    hide Canonical, AfterRecord, LocksGrow;
    if rs == [] {
      GrowSelf(v);
    } else {
      var u := AfterRecord(v, rs[0]);
      RecordKeeps(v, rs[0]);
      RecordCanonical(v, rs[0]);
      RecordsKeep(u, rs[1..]);
      GrowTransitive(v, u, AfterRecords(u, rs[1..]));
    }
  }

  lemma GrowKeepsEids(u: View, v: View, w: View)
    requires EidLocks(u, v) && LocksGrow(v, w)
    ensures EidLocks(u, w)
  {
  }

  lemma CleanedLocks(v: View, w: View, ks: seq<Key>)
    requires Configured(v, ks) && Disjoint(EidKeys(v)) && Cleaned(v, w, ks)
    ensures EidLocks(v, w)
  {
    hide BelowAny;
    forall k | k in EidKeys(v) ensures !BelowAny(ks, k) {
      NoEidBelow(v, ks, k);
    }
  }

  lemma RegisterLocks(v: View, ks: seq<Key>, rs: seq<Rec>)
    requires Canonical(v) && Configured(v, ks) && Disjoint(EidKeys(v))
    ensures Cleanable(v, ks) && EidLocks(v, AfterRegister(v, ks, rs))
    ensures v.Keys * {[]} <= AfterRegister(v, ks, rs).Keys
  {
    hide Canonical, Configured, EidKeys, Disjoint, AfterRecords, AfterCleanAll, BelowAny, EidLocks;
    CleanedIsCleaned(v, ks);
    var u := AfterCleanAll(v, ks);
    CleanedLocks(v, u, ks);
    RecordsKeep(u, rs);
    GrowKeepsEids(v, u, AfterRecords(u, rs));
    NothingBelowRoot(ks);
  }

  lemma NothingBelowRoot(ks: seq<Key>)
    ensures !BelowAny(ks, [])
  {
  }

  // ---------- the effect of an update ----------

  /** The prefixes for one table belong to the site. */
  ghost predicate AllIn(v: View, rs: seq<MapRecord>, f: Family, site: nat) {
    forall r | r in rs && r.eid.family == f :: SiteOf(v, KeyOf(r.eid), Some(site))
  }

  lemma AllOfIn(v: Pair, rs: seq<MapRecord>, f: Family, site: nat)
    requires AllOf(v, Eids(rs), site)
    ensures AllIn(v.Of(f), rs, f, site)
  {
    hide SiteOf, KeyOf;
    forall r | r in rs && r.eid.family == f ensures SiteOf(v.Of(f), KeyOf(r.eid), Some(site)) {
      var i :| 0 <= i < |rs| && rs[i] == r;
      assert Eids(rs)[i] in Eids(rs);
    }
  }

  lemma {:induction false} RecsMembers(rs: seq<MapRecord>, f: Family, proxy: bool)
    ensures forall x | x in RecsOf(rs, f, proxy) :: exists r :: r in rs && r.eid.family == f && RecOf(r, proxy) == x
    ensures forall r | r in rs && r.eid.family == f :: RecOf(r, proxy) in RecsOf(rs, f, proxy)
  {
    hide RecOf;
    if rs != [] {
      RecsMembers(rs[1..], f, proxy);
      assert forall r :: r in rs <==> r == rs[0] || r in rs[1..];
    }
  }

  lemma RecordsInside(v: View, ks: seq<Key>, site: nat, rs: seq<MapRecord>, f: Family, proxy: bool)
    requires SiteKeys(v, ks, site) && AllIn(v, rs, f, site)
    ensures forall x | x in RecsOf(rs, f, proxy) :: Inside(SetOf(ks), x.key) && Registering(x)
  {
    hide KeyOf, SiteOf, Inside, SetOf, SiteKeys, Collect, RecsOf;
    RecsMembers(rs, f, proxy);
    forall x | x in RecsOf(rs, f, proxy) ensures Inside(SetOf(ks), x.key) && Registering(x) {
      var r :| r in rs && r.eid.family == f && RecOf(r, proxy) == x;
      SiteIsInside(v, ks, site, KeyOf(r.eid));
    }
  }

  lemma KeysOfRecords(rs: seq<MapRecord>, f: Family, proxy: bool, x: Key)
    ensures Named(RecsOf(rs, f, proxy), x) <==> HasKey(rs, f, x)
  {
    hide KeyOf, Collect, RecsOf;
    RecsMembers(rs, f, proxy);
    if HasKey(rs, f, x) {
      var r :| r in rs && r.eid.family == f && KeyOf(r.eid) == x;
      assert RecOf(r, proxy).key == x;
    }
  }

  /** Validation first, then the update: only locks differ in between. */
  lemma UpdateReplaces(v: View, u: View, w: View, ks: seq<Key>, rs: seq<MapRecord>, f: Family, proxy: bool)
    requires MoreLocks(v, u) && Untouched(u, w, SetOf(ks))
    requires Remade(u, w, ks, RecsOf(rs, f, proxy))
    ensures Replaced(v, w, ks, rs, f)
  {
    hide Inside, SetOf, IsMapping, HasKey, RecsOf, Bare, Named;
    forall x ensures Named(RecsOf(rs, f, proxy), x) <==> HasKey(rs, f, x) {
      KeysOfRecords(rs, f, proxy, x);
    }
    forall x | x in w && Bare(u, w, ks, x) ensures Bare(v, w, ks, x) {
      BareBefore(v, u, w, ks, x);
    }
    forall x | x in ks ensures RolesAt(v, w, x) {
      assert RolesAt(u, w, x);
    }
  }

  lemma BareBefore(v: View, u: View, w: View, ks: seq<Key>, x: Key)
    requires MoreLocks(v, u) && x in w && Bare(u, w, ks, x)
    ensures Bare(v, w, ks, x)
  {
  }

  /** Of the records for one prefix the last one stands. */
  lemma {:induction false} LastStands(v: View, rs: seq<MapRecord>, f: Family, proxy: bool, i: nat)
    requires Canonical(v) && IsLast(rs, f, i)
    ensures Carries(AfterRecords(v, RecsOf(rs, f, proxy)), RecOf(rs[i], proxy))
    decreases |rs|
  {
    hide Canonical, AfterRecord, Carries, KeyOf, FlagsOf, Collect;
    var recs, rest := RecsOf(rs, f, proxy), RecsOf(rs[1..], f, proxy);
    var u := if rs[0].eid.family == f then AfterRecord(v, RecOf(rs[0], proxy)) else v;
    assert rs[0].eid.family == f ==> recs[0] == RecOf(rs[0], proxy) && recs[1..] == rest;
    assert rs[0].eid.family != f ==> recs == rest;
    RecordCanonical(v, RecOf(rs[0], proxy));
    if i == 0 {
      RecordCarried(v, RecOf(rs[0], proxy));
      forall x | x in rest ensures x.key != KeyOf(rs[0].eid) {
        RecsMembers(rs[1..], f, proxy);
        var r :| r in rs[1..] && r.eid.family == f && RecOf(r, proxy) == x;
        var j :| 0 <= j < |rs[1..]| && rs[1..][j] == r;
        assert rs[j + 1] == r;
      }
      OthersKeep(u, rest, RecOf(rs[0], proxy));
    } else {
      LastStands(u, rs[1..], f, proxy, i - 1);
    }
  }

  lemma UpdateCarries(u: View, ks: seq<Key>, rs: seq<MapRecord>, f: Family, proxy: bool)
    requires Canonical(u) && Configured(u, ks)
    ensures Cleanable(u, ks) && Carried(AfterRegister(u, ks, RecsOf(rs, f, proxy)), rs, f, proxy)
  {
    hide Canonical, Configured, AfterCleanAll, Cleanable, AfterRecords, Carries, RecOf, RecsOf, BelowAny, KeyOf, Stands;
    CleanedIsCleaned(u, ks);
    forall i: nat | IsLast(rs, f, i) ensures Carries(AfterRegister(u, ks, RecsOf(rs, f, proxy)), RecOf(rs[i], proxy))
      && Stands(AfterRegister(u, ks, RecsOf(rs, f, proxy)), rs[i], proxy) {
      LastStands(AfterCleanAll(u, ks), rs, f, proxy, i);
      CarriesStands(AfterRegister(u, ks, RecsOf(rs, f, proxy)), rs[i], proxy);
    }
  }

  /** What a validated update does to one of the two tables. */
  lemma UpdateEffect(v: View, u: View, ks: seq<Key>, site: nat, rs: seq<MapRecord>, f: Family, proxy: bool)
    requires MoreLocks(v, u) && Canonical(u) && Configured(u, ks) && Disjoint(EidKeys(u))
    requires SiteKeys(v, ks, site) && AllIn(v, rs, f, site)
    ensures Cleanable(u, ks) && Canonical(AfterRegister(u, ks, RecsOf(rs, f, proxy)))
    ensures SameEids(v, AfterRegister(u, ks, RecsOf(rs, f, proxy)))
    ensures EidLocks(v, AfterRegister(u, ks, RecsOf(rs, f, proxy)))
    ensures Replaced(v, AfterRegister(u, ks, RecsOf(rs, f, proxy)), ks, rs, f)
    ensures Carried(AfterRegister(u, ks, RecsOf(rs, f, proxy)), rs, f, proxy)
  {
    hide Carried, MoreLocks, Canonical, Configured, Disjoint, EidKeys, SiteKeys, AllIn, Cleanable, AfterRegister,
      RecsOf, SameEids, EidLocks, Replaced, Inside, SetOf, IsMapping, Registering, Untouched;
    RecordsInside(v, ks, site, rs, f, proxy);
    var recs := RecsOf(rs, f, proxy);
    RegisterEffect(u, ks, recs);
    RegisterLocks(u, ks, recs);
    var w := AfterRegister(u, ks, recs);
    MoreLocksKeep(v, u);
    SameEidsTransitive(v, u, w);
    EidLocksTransitive(v, u, w);
    UpdateReplaces(v, u, w, ks, rs, f, proxy);
    UpdateCarries(u, ks, rs, f, proxy);
  }

  // ---------- the code ----------

  /** A record on a table with its root on top leaves the root there. */
  method ProcessStanding(t: Table, r: MapRecord, proxy: bool)
    requires Standing(t) && r.eid.family == t.family
    modifies t`top, t`count, t`shape, t`view, t.shape.Keys
    ensures Standing(t) && t.view == AfterRecord(old(t.view), RecOf(r, proxy))
    ensures forall n | n in t.shape :: n in old(t.shape) || fresh(n)
    ensures forall n | n in old(t.shape) :: n in t.shape
  {
    hide KeyOf, Trie, Size, ConsistentBut, Holds, Stored, AfterRecord, Collect, FlagsOf, Canonical;
    ghost var v := t.view;
    TopIsStored(t.top, t.shape, t.family, v);
    ConsistentCanonical(t.top, t.shape, t.family, v);
    RecordParts(v, RecOf(r, proxy));
    var node := ProcessRecord(t, r.eid, r.locs, FlagsOf(r, proxy));
    RootOnTop(t.top, t.shape, t.family, t.view);
  }

  /** A record goes to the table of its family. */
  method ProcessIn(d: Db, r: MapRecord, proxy: bool)
    requires Ready(d)
    modifies d.four`top, d.four`count, d.four`shape, d.four`view, d.four.shape.Keys
    modifies d.six`top, d.six`count, d.six`shape, d.six`view, d.six.shape.Keys
    ensures Ready(d) && Contents(d).Of(r.eid.family) == AfterRecord(old(Contents(d).Of(r.eid.family)), RecOf(r, proxy))
    ensures forall f | f != r.eid.family :: Contents(d).Of(f) == old(Contents(d).Of(f))
    ensures forall f, n | n in d.Of(f).shape :: n in old(d.Of(f).shape) || fresh(n)
    ensures forall f, n | n in old(d.Of(f).shape) :: n in d.Of(f).shape
  {
    hide KeyOf, Trie, Size, ConsistentBut, Holds, Stored, AfterRecord, RecOf;
    NodesApart(d);
    if r.eid.family == IPv4 {
      ProcessStanding(d.four, r, proxy);
    } else {
      ProcessStanding(d.six, r, proxy);
    }
  }

  lemma RecsStep(v: View, rs: seq<MapRecord>, f: Family, proxy: bool)
    requires rs != []
    ensures rs[0].eid.family != f ==> RecsOf(rs, f, proxy) == RecsOf(rs[1..], f, proxy)
    ensures rs[0].eid.family == f ==>
      AfterRecords(v, RecsOf(rs, f, proxy))
      == AfterRecords(AfterRecord(v, RecOf(rs[0], proxy)), RecsOf(rs[1..], f, proxy))
  {
    hide RecOf, AfterRecord;
    if rs[0].eid.family == f {
      assert RecsOf(rs, f, proxy)[1..] == RecsOf(rs[1..], f, proxy);
    }
  }

  /** The first i records are done. */
  ghost predicate Processing(v0: Pair, v: Pair, rs: seq<MapRecord>, proxy: bool, i: nat)
    requires i <= |rs|
  {
    forall f :: AfterRecords(v.Of(f), RecsOf(rs[i..], f, proxy)) == AfterRecords(v0.Of(f), RecsOf(rs, f, proxy))
  }

  lemma ProcessingStep(v0: Pair, v: Pair, w: Pair, rs: seq<MapRecord>, proxy: bool, i: nat)
    requires i < |rs| && Processing(v0, v, rs, proxy, i)
    requires w.Of(rs[i].eid.family) == AfterRecord(v.Of(rs[i].eid.family), RecOf(rs[i], proxy))
    requires forall f | f != rs[i].eid.family :: w.Of(f) == v.Of(f)
    ensures Processing(v0, w, rs, proxy, i + 1)
  {
    hide AfterRecords, AfterRecord, RecsOf, RecOf;
    assert rs[i..][0] == rs[i] && rs[i..][1..] == rs[i + 1..];
    forall f: Family
      ensures AfterRecords(w.Of(f), RecsOf(rs[i + 1..], f, proxy)) == AfterRecords(v0.Of(f), RecsOf(rs, f, proxy))
    {
      RecsStep(v.Of(f), rs[i..], f, proxy);
    }
  }

  lemma ProcessingEnds(v0: Pair, v: Pair, rs: seq<MapRecord>, proxy: bool)
    ensures Processing(v0, v0, rs, proxy, 0)
    ensures Processing(v0, v, rs, proxy, |rs|) ==> forall f :: v.Of(f) == AfterRecords(v0.Of(f), RecsOf(rs, f, proxy))
  {
    assert rs[0..] == rs && rs[|rs|..] == [];
  }

  /** The record loop of `_register`. */
  method ProcessAll(d: Db, rs: seq<MapRecord>, proxy: bool)
    requires Ready(d)
    modifies d.four`top, d.four`count, d.four`shape, d.four`view, d.four.shape.Keys
    modifies d.six`top, d.six`count, d.six`shape, d.six`view, d.six.shape.Keys
    ensures Ready(d) && forall f :: Contents(d).Of(f) == AfterRecords(old(Contents(d).Of(f)), RecsOf(rs, f, proxy))
    ensures forall f, n | n in d.Of(f).shape :: n in old(d.Of(f).shape) || fresh(n)
    ensures forall f, n | n in old(d.Of(f).shape) :: n in d.Of(f).shape
  {
    hide Standing, AfterRecord, AfterRecords, RecsOf, RecOf, Processing;
    ghost var v0 := Contents(d);
    ProcessingEnds(v0, v0, rs, proxy);
    for i := 0 to |rs|
      invariant Ready(d) && Processing(v0, Contents(d), rs, proxy, i)
      invariant forall f, n | n in d.Of(f).shape :: n in old(d.Of(f).shape) || fresh(n)
      invariant forall f, n | n in old(d.Of(f).shape) :: n in d.Of(f).shape
    {
      ghost var v := Contents(d);
      assert d.Of(IPv4) == d.four && d.Of(IPv6) == d.six;
      ProcessIn(d, rs[i], proxy);
      ProcessingStep(v0, v, Contents(d), rs, proxy, i);
    }
    ProcessingEnds(v0, Contents(d), rs, proxy);
  }

  lemma EidNotBelow(v: View, ks: seq<Key>, x: Key)
    requires Configured(v, ks) && Disjoint(EidKeys(v)) && x in EidKeys(v)
    ensures !BelowAny(ks, x)
  {
    NoEidBelow(v, ks, x);
  }

  lemma StandingCanonical(t: Table)
    requires Standing(t)
    ensures Canonical(t.view)
  {
    hide Trie, ConsistentBut, Canonical;
    ConsistentCanonical(t.top, t.shape, t.family, t.view);
  }

  /** The update of `_register`: the site's mappings go, those of the message come. */
  method Update(d: Db, eids: seq<Node>, rs: seq<MapRecord>, proxy: bool)
    requires Ready(d) && forall n | n in eids :: n in d.Of(n.p.family).shape
    requires forall f :: Configured(Contents(d).Of(f), FamilyKeys(eids, f)) && Disjoint(EidKeys(Contents(d).Of(f)))
    modifies d.four, d.six, d.four.shape.Keys, d.six.shape.Keys
    ensures Ready(d) && forall f ::
      Became(old(Contents(d).Of(f)), Contents(d).Of(f), FamilyKeys(eids, f), rs, f, proxy)
    ensures forall f, n | n in old(d.Of(f).shape) && n.key in EidKeys(old(Contents(d).Of(f))) :: n in d.Of(f).shape
    ensures forall f, n | n in d.Of(f).shape :: n in old(d.Of(f).shape) || fresh(n)
  {
    hide Standing, AfterRecords, AfterCleanAll, Cleanable, Configured, RecsOf, Disjoint, EidKeys, BelowAny, FamilyKeys;
    ghost var v := Contents(d);
    forall f: Family, k | k in EidKeys(v.Of(f)) ensures !BelowAny(FamilyKeys(eids, f), k) {
      EidNotBelow(v.Of(f), FamilyKeys(eids, f), k);
    }
    CleanSite(d, eids);
    assert d.Of(IPv4) == d.four && d.Of(IPv6) == d.six;
    ProcessAll(d, rs, proxy);
  }

  lemma OwnedNodes(s: Links, v: View, f: Family, eids: seq<Node>, site: nat)
    requires Owns(s, v, f, eids, site)
    ensures forall n | n in eids && n.p.family == f :: n in s && n.key in EidKeys(v)
  {
    hide FamilyKeys, SiteKeys;
    forall n | n in eids && n.p.family == f ensures n.key in EidKeys(v) {
      KeyInFamily(eids, n);
    }
  }

  /** Every site keeps its nodes as long as configured nodes stay where they are. */
  lemma ServingStays(s: Links, t: Links, v: View, w: View, f: Family, sites: seq<Site>)
    requires ServingIn(s, v, f, sites) && SameEids(v, w) && EidLocks(v, w)
    requires forall n | n in s && n.key in EidKeys(v) :: n in t
    ensures ServingIn(t, w, f, sites)
  {
    hide Owns, SameEids, EidLocks, EidKeys, SitesKnown, Disjoint;
    KnownStays(v, w, |sites|);
    forall i | 0 <= i < |sites| ensures Owns(t, w, f, sites[i].eids, i) {
      OwnedNodes(s, v, f, sites[i].eids, i);
      OwnsStays(s, t, v, w, f, sites[i].eids, i);
    }
  }

  lemma UpdateAllowed(s: Links, v: View, u: View, f: Family, sites: seq<Site>, site: nat)
    requires site < |sites| && ServingIn(s, v, f, sites) && MoreLocks(v, u)
    ensures forall n | n in sites[site].eids && n.p.family == f :: n in s
    ensures Configured(u, FamilyKeys(sites[site].eids, f)) && Disjoint(EidKeys(u)) && EidKeys(u) == EidKeys(v)
    ensures SiteKeys(v, FamilyKeys(sites[site].eids, f), site)
  {
    hide Configured, SiteKeys, MoreLocks, EidLocks, FamilyKeys;
    MoreLocksKeep(v, u);
    EidsOfSame(v, u);
    assert Owns(s, v, f, sites[site].eids, site);
    ConfiguredStays(v, u, FamilyKeys(sites[site].eids, f));
  }

  /** What an update has done to one of the two tables: `v` before the message, `u` validated, `w` at
      the end. */
  ghost predicate Answered(v: View, u: View, w: View, ks: seq<Key>, rs: seq<MapRecord>, f: Family, proxy: bool) {
    MoreLocks(v, u) && Became(u, w, ks, rs, f, proxy) && Replaced(v, w, ks, rs, f) && Carried(w, rs, f, proxy)
  }

  ghost predicate Became(u: View, w: View, ks: seq<Key>, rs: seq<MapRecord>, f: Family, proxy: bool) {
    Cleanable(u, ks) && w == AfterRegister(u, ks, RecsOf(rs, f, proxy))
  }

  lemma OneUpdated(v: View, u: View, w: View, ks: seq<Key>, rs: seq<MapRecord>, f: Family, site: nat, proxy: bool)
    requires MoreLocks(v, u) && Canonical(u) && Configured(u, ks) && Disjoint(EidKeys(u))
    requires SiteKeys(v, ks, site) && AllIn(v, rs, f, site) && Became(u, w, ks, rs, f, proxy)
    ensures SameEids(v, w) && EidLocks(v, w) && Answered(v, u, w, ks, rs, f, proxy)
  {
    hide Configured, SiteKeys, MoreLocks, Canonical, AllIn, Disjoint, Cleanable, AfterRegister, EidKeys,
      SameEids, EidLocks, Replaced, Carried, RecsOf;
    UpdateEffect(v, u, ks, site, rs, f, proxy);
  }

  lemma EidsOfSame(v: View, w: View)
    requires SameEids(v, w)
    ensures EidKeys(w) == EidKeys(v)
  {
  }

  /** An update is the last one of its site, under the key it has now, if that is shorter than 128
      characters. */
  lemma UpdateIsCurrent(v: Pair, w: Pair, before: seq<SiteState>, after: seq<SiteState>, rs: seq<MapRecord>,
                        pk: RegisterMessage, site: nat)
    requires |pk.auth| <= 20 && Decided(v, before, after, Eids(rs), pk, 1, site) && AllOf(w, Eids(rs), site)
    requires KeyLoss.IsString(before[site].key) && |before[site].key| < 128
    ensures Current(w, after[site], site, rs, pk) && after[site].key == before[site].key
  {
    hide AllOf, Known, Authentic, Hashing, KeyLoss.NextKey;
    ShortKeyStays(before[site], pk);
  }

  /** The update of a validated message: `v` before the validation, `s` the nodes of a table. */
  method UpdateSite(d: Db, sites: seq<Site>, rs: seq<MapRecord>, proxy: bool, site: nat, ghost v: Pair)
    requires Ready(d) && site < |sites| && LocksOnly(v, Contents(d)) && AllOf(v, Eids(rs), site)
    requires ServingIn(d.four.shape, v.four, IPv4, sites) && ServingIn(d.six.shape, v.six, IPv6, sites)
    modifies d.four, d.six, d.four.shape.Keys, d.six.shape.Keys
    ensures Ready(d) && AllOf(Contents(d), Eids(rs), site)
    ensures forall f :: SameEids(v.Of(f), Contents(d).Of(f)) && EidLocks(v.Of(f), Contents(d).Of(f))
    ensures forall f :: Answered(v.Of(f), old(Contents(d)).Of(f), Contents(d).Of(f),
                                 FamilyKeys(sites[site].eids, f), rs, f, proxy)
    ensures forall f, n | n in old(d.Of(f).shape) && n.key in EidKeys(v.Of(f)) :: n in d.Of(f).shape
    ensures forall f, n | n in d.Of(f).shape :: n in old(d.Of(f).shape) || fresh(n)
  {
    hide Standing, ServingIn, SameEids, EidLocks, EidKeys, Disjoint, LocksOnly, AllOf, Configured, Canonical, Answered,
      AllIn, FamilyKeys, Became, SiteKeys, MoreLocks;
    ghost var u, s4, s6 := Contents(d), d.four.shape, d.six.shape;
    LocksKeep(v, u);
    StandingCanonical(d.four);
    StandingCanonical(d.six);
    AllOfIn(v, rs, IPv4, site);
    AllOfIn(v, rs, IPv6, site);
    UpdateAllowed(s4, v.four, u.four, IPv4, sites, site);
    UpdateAllowed(s6, v.six, u.six, IPv6, sites, site);
    Update(d, sites[site].eids, rs, proxy);
    ghost var ks4, ks6 := FamilyKeys(sites[site].eids, IPv4), FamilyKeys(sites[site].eids, IPv6);
    OneUpdated(v.four, u.four, d.four.view, ks4, rs, IPv4, site, proxy);
    OneUpdated(v.six, u.six, d.six.view, ks6, rs, IPv6, site, proxy);
    AllOfStays(v, Contents(d), Eids(rs), site);
  }

  /** Both tables before a message, after its validation and at the end: an update replaces the mappings
      of its site, any other message changes locks only; configured prefixes keep their sites. */
  ghost predicate Outcome(v: Pair, u: Pair, w: Pair, sites: seq<Site>, rs: seq<MapRecord>, proxy: bool, rt: int,
                          site: nat) {
    && (forall f :: SameEids(v.Of(f), w.Of(f))) && (rt != 1 ==> LocksOnly(v, w))
    && (rt == 1 ==> site < |sites| && AllOf(w, Eids(rs), site) && forall f ::
          Answered(v.Of(f), u.Of(f), w.Of(f), FamilyKeys(sites[site].eids, f), rs, f, proxy))
  }

  /** The database serves the sites that it served, if its configured nodes are where they were. */
  lemma StillServing(d: Db, sites: seq<Site>, s4: Links, s6: Links, v: Pair)
    requires Ready(d) && ServingIn(s4, v.four, IPv4, sites) && ServingIn(s6, v.six, IPv6, sites)
    requires forall f :: SameEids(v.Of(f), Contents(d).Of(f)) && EidLocks(v.Of(f), Contents(d).Of(f))
    requires forall n | n in s4 && n.key in EidKeys(v.four) :: n in d.four.shape
    requires forall n | n in s6 && n.key in EidKeys(v.six) :: n in d.six.shape
    ensures Serving(d, sites)
  {
    hide Standing, ServingIn, SameEids, EidLocks, EidKeys;
    assert v.Of(IPv4) == v.four && v.Of(IPv6) == v.six;
    assert Contents(d).Of(IPv4) == d.four.view && Contents(d).Of(IPv6) == d.six.view;
    ServingStays(s4, d.four.shape, v.four, d.four.view, IPv4, sites);
    ServingStays(s6, d.six.shape, v.six, d.six.view, IPv6, sites);
  }

  /** The rest of `_register`, after the validation of a message has left the tables v as u. */
  method Finish(d: Db, sites: seq<Site>, rs: seq<MapRecord>, proxy: bool, rt: int, site: nat, ghost v: Pair)
    requires Ready(d) && LocksOnly(v, Contents(d)) && (rt == 1 ==> site < |sites| && AllOf(v, Eids(rs), site))
    requires ServingIn(d.four.shape, v.four, IPv4, sites) && ServingIn(d.six.shape, v.six, IPv6, sites)
    modifies d.four, d.six, d.four.shape.Keys, d.six.shape.Keys
    ensures Serving(d, sites) && Outcome(v, old(Contents(d)), Contents(d), sites, rs, proxy, rt, site)
    ensures forall f, n | n in d.Of(f).shape :: n in old(d.Of(f).shape) || fresh(n)
  {
    hide Standing, ServingIn, SameEids, EidLocks, EidKeys, LocksOnly, AllOf, Answered, FamilyKeys;
    ghost var s4, s6 := d.four.shape, d.six.shape;
    LocksKeep(v, Contents(d));
    assert d.Of(IPv4) == d.four && d.Of(IPv6) == d.six && v.Of(IPv4) == v.four && v.Of(IPv6) == v.six;
    if rt == 1 {
      UpdateSite(d, sites, rs, proxy, site, v);
    }
    StillServing(d, sites, s4, s6, v);
  }

  /** `_register`: 1 for an update, 0 for a message already known, -1 for one to ignore. */
  method Register(d: Db, sites: seq<Site>, rs: seq<MapRecord>, proxy: bool, pk: RegisterMessage)
    returns (rt: int, site: nat, ghost u: Pair)
    requires Serving(d, sites) && |pk.auth| <= 20
    requires Keyring(sites) && forall s | s in sites :: s.key.Length + 128 <= 0x1_0000_0000
    requires |Blank(pk, true)| + 64 <= 0x1_0000_0000
    modifies d.four, d.six, d.four.shape.Keys, d.six.shape.Keys, sites, set s | s in sites :: s.key
    ensures Serving(d, sites) && Keyring(sites)
    ensures Decided(old(Contents(d)), old(States(sites)), States(sites), Eids(rs), pk, rt, site)
    ensures Outcome(old(Contents(d)), u, Contents(d), sites, rs, proxy, rt, site)
    ensures forall f, n | n in d.Of(f).shape :: n in old(d.Of(f).shape) || fresh(n)
  {
    hide Standing, ServingIn, SitesKnown, LocksOnly, AllOf, Blank, Outcome, Keyring, Decided, States;
    ghost var v := Contents(d);
    KnownIn(d.four.shape, v.four, IPv4, sites);
    KnownIn(d.six.shape, v.six, IPv6, sites);
    rt, site := ValidateRegister(d, sites, Eids(rs), pk);
    u := Contents(d);
    SiteDecided(v, old(States(sites)), States(sites), Eids(rs), pk, rt, site);
    Finish(d, sites, rs, proxy, rt, site, v);
  }

  lemma SiteDecided(v: Pair, before: seq<SiteState>, after: seq<SiteState>, ps: seq<Prefix>, pk: RegisterMessage,
                    rt: int, site: nat)
    requires |pk.auth| <= 20 && Decided(v, before, after, ps, pk, rt, site)
    ensures rt >= 0 ==> site < |before| && ps != [] && AllOf(v, ps, site)
  {
  }

  lemma KnownIn(s: Links, v: View, f: Family, sites: seq<Site>)
    requires ServingIn(s, v, f, sites)
    ensures SitesKnown(v, |sites|)
  {
  }

  lemma LocksKeep(v: Pair, w: Pair)
    requires LocksOnly(v, w)
    ensures MoreLocks(v.four, w.four) && SameEids(v.four, w.four) && EidLocks(v.four, w.four)
    ensures MoreLocks(v.six, w.six) && SameEids(v.six, w.six) && EidLocks(v.six, w.six)
  {
    MoreLocksKeep(v.four, w.four);
    MoreLocksKeep(v.six, w.six);
  }

  // ---------- the same message again ----------

  /** Two messages that differ in nonce and authentication data only. */
  predicate SameButNonce(a: RegisterMessage, b: RegisterMessage) {
    a.head == b.head && |a.nonce| == |b.nonce| && a.mid == b.mid && |a.auth| == |b.auth| && a.body == b.body
  }

  /** Of two messages with parts of the same sizes the same is hashed without nonce exactly if they differ
      in nonce and authentication data only. */
  lemma SameBlank(a: RegisterMessage, b: RegisterMessage)
    requires |a.head| == |b.head| && |a.nonce| == |b.nonce| && |a.mid| == |b.mid| && |a.auth| == |b.auth|
    ensures Blank(a, true) == Blank(b, true) <==> SameButNonce(a, b)
  {
    if Blank(a, true) == Blank(b, true) {
      BlankParts(a);
      BlankParts(b);
    }
  }

  lemma BlankParts(pk: RegisterMessage)
    ensures var s, h, n, m := Blank(pk, true), |pk.head|, |pk.head| + |pk.nonce|, |pk.head| + |pk.nonce| + |pk.mid|;
      m + |pk.auth| <= |s| && s[..h] == pk.head && s[n..m] == pk.mid && s[m + |pk.auth|..] == pk.body
  {
  }

  /** The verdict on the last update of a site, sent again with another nonce: 0 exactly if its hash
      under the present key is that under the key it was accepted with. */
  lemma ResentVerdict(s: SiteState, under: Bytes, a: RegisterMessage, b: RegisterMessage)
    requires SameButNonce(a, b) && |a.auth| <= 20 && s.hashing == Some(Hashing(under, a, true))
    ensures Verdict(s, b) == 0 <==> SameUpTo(Hashing(under, a, true), Hashing(s.key, a, true), |a.auth|)
    ensures under == s.key ==> Verdict(s, b) == 0 && AfterCompare(s, b).key == KeyLoss.NextKey(s.key)
  {
    hide Authentic, Sha1Spec.Hmac, KeyLoss.NextKey;
    assert Blank(a, true) == Blank(b, true);
    SameAsItself(Hashing(s.key, b, true), |b.auth|);
  }

  /** Nothing changes but the key of one site, and it does only if it has 128 characters or more. */
  ghost predicate OnlyKeyLost(before: seq<SiteState>, after: seq<SiteState>, last: nat) {
    && last < |before| == |after| && after[last] == before[last].(key := KeyLoss.NextKey(before[last].key))
    && (|before[last].key| < 128 ==> after[last] == before[last])
    && (forall i | 0 <= i < |before| && i != last :: after[i] == before[i])
  }

  /** The last update of a site sent again with another nonce is answered 0, and changes nothing but
      locks; the site stays as it is if its key is shorter than 128 characters. */
  method Resend(d: Db, sites: seq<Site>, rs: seq<MapRecord>, proxy: bool, again: RegisterMessage,
                ghost pk: RegisterMessage, ghost last: nat)
    returns (rt: int, site: nat)
    requires Serving(d, sites) && |pk.auth| <= 20
    requires Keyring(sites) && forall s | s in sites :: s.key.Length + 128 <= 0x1_0000_0000
    requires |Blank(again, true)| + 64 <= 0x1_0000_0000 && SameButNonce(pk, again)
    requires last < |sites| && Current(Contents(d), States(sites)[last], last, rs, pk)
    modifies d.four, d.six, d.four.shape.Keys, d.six.shape.Keys, sites, set s | s in sites :: s.key
    ensures Serving(d, sites) && Keyring(sites) && rt == 0 && site == last
    ensures LocksOnly(old(Contents(d)), Contents(d))
    ensures OnlyKeyLost(old(States(sites)), States(sites), last)
    ensures forall f, n | n in d.Of(f).shape :: n in old(d.Of(f).shape) || fresh(n)
  {
    hide LocksOnly, AllOf, Verdict, AfterCompare, Hashing, Answered, Serving, SameEids, Keyring, OnlyKeyLost, Decided;
    ghost var u, v, before := Contents(d), Contents(d), States(sites);
    ResentVerdict(before[last], before[last].key, pk, again);
    rt, site, u := Register(d, sites, rs, proxy, again);
    OnlyLast(v, before, States(sites), Eids(rs), again, rt, site, last);
  }

  lemma OnlyLast(v: Pair, before: seq<SiteState>, after: seq<SiteState>, ps: seq<Prefix>, pk: RegisterMessage,
                 rt: int, site: nat, last: nat)
    requires |pk.auth| <= 20 && Decided(v, before, after, ps, pk, rt, site)
    requires last < |before| && ps != [] && AllOf(v, ps, last) && Verdict(before[last], pk) == 0
    requires KeyLoss.IsString(before[last].key)
    ensures rt == 0 && site == last && OnlyKeyLost(before, after, last)
  {
    hide AllOf, Known, Authentic, KeyLoss.NextKey, Hashing;
    forall i: nat | i < |before| && AllOf(v, ps, i) ensures i == last {
      OnlySite(v, ps, i, last);
    }
    if |before[last].key| < 128 {
      ShortKeyStays(before[last], pk);
    }
  }
}
