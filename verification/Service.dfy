/** A map server over its whole life: any configuration without overlapping prefixes, then any
    sequence of Map-Registers. */
module Service {
  import opened Types
  import opened Bits
  import opened Prefixes
  import opened Views
  import opened Shapes
  import opened Tries
  import opened Lookups
  import opened Registers
  import opened MapServer
  import opened Databases
  import opened MapRegister
  import opened Sites
  import KeyLoss

  // ---------- what one message leaves of another site ----------

  /** Inside the prefixes only locks have changed. */
  ghost predicate SameInside(v: View, w: View, ks: seq<Key>) {
    forall x | Inside(SetOf(ks), x) :: (x in v <==> x in w) && (x in v && x in w ==> w[x] == v[x].(lock := w[x].lock))
  }

  lemma LocksSameInside(v: View, w: View, ks: seq<Key>)
    requires MoreLocks(v, w)
    ensures SameInside(v, w, ks)
  {
    hide Inside, SetOf;
  }

  /** No prefix of the one site overlaps one of the other. */
  ghost predicate Separate(ks: seq<Key>, es: seq<Key>) {
    forall k, e | k in ks && e in es :: !Overlap(k, e)
  }

  lemma SitesSeparate(s: Links, v: View, f: Family, sites: seq<Site>, a: nat, b: nat)
    requires ServingIn(s, v, f, sites) && a < |sites| && b < |sites| && a != b
    ensures Separate(FamilyKeys(sites[a].eids, f), FamilyKeys(sites[b].eids, f))
  {
    hide FamilyKeys;
    assert Owns(s, v, f, sites[a].eids, a) && Owns(s, v, f, sites[b].eids, b);
    var ks, es := FamilyKeys(sites[a].eids, f), FamilyKeys(sites[b].eids, f);
    forall k, e | k in ks && e in es ensures !Overlap(k, e) {
      assert k in EidKeys(v) && e in EidKeys(v) && SiteAt(v, k) != SiteAt(v, e);
    }
  }

  /** What lies inside one of separate prefixes lies outside the others. */
  lemma InsideApart(ks: seq<Key>, es: seq<Key>, x: Key)
    requires Separate(ks, es) && Inside(SetOf(ks), x)
    ensures !Inside(SetOf(es), x)
  {
    var k :| k in SetOf(ks) && k <= x;
    forall e | e in SetOf(es) ensures !(e <= x) {
      assert !Overlap(k, e);
    }
  }

  lemma OthersSameInside(v: View, w: View, ks: seq<Key>, es: seq<Key>, rs: seq<MapRecord>, f: Family)
    requires Replaced(v, w, es, rs, f) && Separate(ks, es)
    ensures SameInside(v, w, ks)
  {
    hide IsMapping, HasKey, Inside, SetOf, Bare, RolesAt, Separate;
    forall x | Inside(SetOf(ks), x) ensures !Inside(SetOf(es), x) {
      InsideApart(ks, es, x);
    }
  }

  // ---------- the mappings of a site ----------

  /** A Map-Register as it comes in, decoded and as octets. */
  datatype Arrival = Arrival(rs: seq<MapRecord>, proxy: bool, pk: RegisterMessage)

  /** The mappings inside a site's prefixes are exactly those of the message. */
  ghost predicate Showing(v: View, ks: seq<Key>, m: Arrival, f: Family) {
    && (forall x | Inside(SetOf(ks), x) :: (x in v && IsMapping(v[x])) <==> HasKey(m.rs, f, x))
    && (forall x | Inside(SetOf(ks), x) :: (x in v && v[x].info != None) <==> HasKey(m.rs, f, x))
    && Carried(v, m.rs, f, m.proxy)
  }

  ghost predicate AllInside(ks: seq<Key>, rs: seq<MapRecord>, f: Family) {
    forall r | r in rs && r.eid.family == f :: Inside(SetOf(ks), KeyOf(r.eid))
  }

  lemma ShowingStays(v: View, w: View, ks: seq<Key>, m: Arrival, f: Family)
    requires Showing(v, ks, m, f) && SameInside(v, w, ks) && AllInside(ks, m.rs, f)
    ensures Showing(w, ks, m, f)
  {
    hide Inside, SetOf, HasKey, KeyOf, Collect, FlagsOf, Stands;
    forall i: nat | IsLast(m.rs, f, i) ensures Carries(w, RecOf(m.rs[i], m.proxy)) && Stands(w, m.rs[i], m.proxy) {
      assert m.rs[i] in m.rs && Carries(v, RecOf(m.rs[i], m.proxy));
      CarriesStands(w, m.rs[i], m.proxy);
    }
  }

  lemma OwnInside(v: View, ks: seq<Key>, site: nat, rs: seq<MapRecord>, f: Family)
    requires SiteKeys(v, ks, site) && AllIn(v, rs, f, site)
    ensures AllInside(ks, rs, f)
  {
    hide KeyOf, SiteOf, Inside, SetOf, SiteKeys;
    forall r | r in rs && r.eid.family == f ensures Inside(SetOf(ks), KeyOf(r.eid)) {
      SiteIsInside(v, ks, site, KeyOf(r.eid));
    }
  }

  // ---------- runs ----------

  /** The tables and the sites between two messages. */
  datatype Moment = Moment(tables: Pair, sites: seq<SiteState>)

  /** The answer to a message, and the site if it was an update. */
  datatype Answer = Answer(rt: int, site: nat)

  /** One message, as `_register` answers it. */
  ghost predicate Step(a: Moment, b: Moment, sites: seq<Site>, m: Arrival, x: Answer)
    requires |m.pk.auth| <= 20
  {
    && Decided(a.tables, a.sites, b.sites, Eids(m.rs), m.pk, x.rt, x.site)
    && (forall f :: SameEids(a.tables.Of(f), b.tables.Of(f)))
    && (x.rt != 1 ==> LocksOnly(a.tables, b.tables))
    && (x.rt == 1 ==> x.site < |sites| && forall f ::
          Replaced(a.tables.Of(f), b.tables.Of(f), FamilyKeys(sites[x.site].eids, f), m.rs, f)
          && Carried(b.tables.Of(f), m.rs, f, m.proxy))
  }

  /** Messages with a nonce, a key identifier and at most 20 octets of authentication data. */
  predicate Sound(ms: seq<Arrival>) {
    forall m | m in ms :: |m.pk.auth| <= 20
  }

  ghost predicate IsRun(run: seq<Moment>, sites: seq<Site>, ms: seq<Arrival>, xs: seq<Answer>)
    requires Sound(ms)
  {
    |run| == |ms| + 1 && |xs| == |ms|
    && forall i | 0 <= i < |ms| :: Step(run[i], run[i + 1], sites, ms[i], xs[i])
  }

  /** What the configuration says of the sites, in one table: their prefixes are apart, and they are
      those that point to the site. */
  ghost predicate Laid(v: Pair, sites: seq<Site>) {
    && (forall f, a, b | 0 <= a < |sites| && 0 <= b < |sites| && a != b ::
          Separate(FamilyKeys(sites[a].eids, f), FamilyKeys(sites[b].eids, f)))
    && (forall f, a | 0 <= a < |sites| :: SiteKeys(v.Of(f), FamilyKeys(sites[a].eids, f), a))
  }

  /** The i-th message is an update, and no later one is an update of the same site. */
  ghost predicate LastAccepted(xs: seq<Answer>, i: nat) {
    i < |xs| && xs[i].rt == 1 && forall j | i < j < |xs| && xs[j].rt == 1 :: xs[j].site != xs[i].site
  }

  /** The site is served as the message says: the prefixes of the records are the site's, its mappings
      are exactly theirs, and its hash is remembered, under the key it was accepted with. */
  ghost predicate Latest(t: Moment, site: nat, eids: seq<Node>, m: Arrival, under: Bytes)
    requires |m.pk.auth| <= 20
  {
    && site < |t.sites| && m.rs != [] && AllOf(t.tables, Eids(m.rs), site)
    && t.sites[site].hashing == Some(Hashing(under, m.pk, true))
    && forall f :: Showing(t.tables.Of(f), FamilyKeys(eids, f), m, f)
  }

  lemma LaidStays(v: Pair, w: Pair, sites: seq<Site>)
    requires Laid(v, sites) && forall f :: SameEids(v.Of(f), w.Of(f))
    ensures Laid(w, sites)
  {
    hide SiteKeys, SameEids, FamilyKeys, Separate;
    forall f, a | 0 <= a < |sites| ensures SiteKeys(w.Of(f), FamilyKeys(sites[a].eids, f), a) {
      SiteKeysStay(v.Of(f), w.Of(f), FamilyKeys(sites[a].eids, f), a);
    }
  }

  lemma {:induction false} LaidAlong(run: seq<Moment>, sites: seq<Site>, ms: seq<Arrival>, xs: seq<Answer>, i: nat)
    requires Sound(ms) && IsRun(run, sites, ms, xs) && Laid(run[0].tables, sites) && i <= |ms|
    ensures Laid(run[i].tables, sites)
  {
    hide Laid, SameEids, Decided, LocksOnly, Replaced, Carried, FamilyKeys;
    if i > 0 {
      LaidAlong(run, sites, ms, xs, i - 1);
      assert Step(run[i - 1], run[i], sites, ms[i - 1], xs[i - 1]);
      LaidStays(run[i - 1].tables, run[i].tables, sites);
    }
  }

  /** What a message does to the record of a site. */
  lemma StepSite(a: Moment, b: Moment, sites: seq<Site>, m: Arrival, x: Answer, s: nat)
    requires |m.pk.auth| <= 20 && Step(a, b, sites, m, x) && s < |a.sites|
    ensures |b.sites| == |a.sites| && (KeyLoss.IsString(a.sites[s].key) && |a.sites[s].key| < 128 ==>
      b.sites[s].key == a.sites[s].key)
    ensures b.sites[s].hashing
      == if x.rt == 1 && x.site == s then Some(Hashing(a.sites[s].key, m.pk, true)) else a.sites[s].hashing
  {
    hide AllOf, Known, Authentic, Hashing, KeyLoss.NextKey, KeyLoss.IsString, Replaced, Carried, FamilyKeys, LocksOnly,
      SameEids;
    if KeyLoss.IsString(a.sites[s].key) && |a.sites[s].key| < 128 {
      ShortKeyStays(a.sites[s], m.pk);
    }
  }

  /** An update is what its site shows. */
  lemma UpdateShown(a: Moment, b: Moment, sites: seq<Site>, m: Arrival, x: Answer)
    requires |m.pk.auth| <= 20 && Step(a, b, sites, m, x) && x.rt == 1
    ensures x.site < |a.sites| && x.site < |sites|
    ensures Latest(b, x.site, sites[x.site].eids, m, a.sites[x.site].key)
  {
    hide AllOf, Hashing, Carried, FamilyKeys, SameEids, Decided, HasKey, Inside;
    SiteDecided(a.tables, a.sites, b.sites, Eids(m.rs), m.pk, x.rt, x.site);
    StepSite(a, b, sites, m, x, x.site);
    assert SameEids(a.tables.Of(IPv4), b.tables.Of(IPv4)) && SameEids(a.tables.Of(IPv6), b.tables.Of(IPv6));
    AllOfStays(a.tables, b.tables, Eids(m.rs), x.site);
  }

  /** It stays so until the next update of the site. */
  lemma LatestStays(a: Moment, b: Moment, sites: seq<Site>, m: Arrival, x: Answer, site: nat, old': Arrival,
                    under: Bytes)
    requires |m.pk.auth| <= 20 && |old'.pk.auth| <= 20 && Step(a, b, sites, m, x) && Laid(a.tables, sites)
    requires site < |sites| && Latest(a, site, sites[site].eids, old', under) && !(x.rt == 1 && x.site == site)
    ensures Latest(b, site, sites[site].eids, old', under)
  {
    hide AllOf, Hashing, Carried, FamilyKeys, SameEids, Decided, HasKey, Inside, Replaced, LocksOnly, Showing,
      SameInside, SiteKeys, AllInside, Separate;
    StepSite(a, b, sites, m, x, site);
    assert SameEids(a.tables.Of(IPv4), b.tables.Of(IPv4)) && SameEids(a.tables.Of(IPv6), b.tables.Of(IPv6));
    AllOfStays(a.tables, b.tables, Eids(old'.rs), site);
    forall f ensures Showing(b.tables.Of(f), FamilyKeys(sites[site].eids, f), old', f) {
      var ks := FamilyKeys(sites[site].eids, f);
      AllOfIn(a.tables, old'.rs, f, site);
      OwnInside(a.tables.Of(f), ks, site, old'.rs, f);
      if x.rt == 1 {
        OthersSameInside(a.tables.Of(f), b.tables.Of(f), ks, FamilyKeys(sites[x.site].eids, f), m.rs, f);
      } else {
        LocksInside(a.tables, b.tables, ks, f);
      }
      ShowingStays(a.tables.Of(f), b.tables.Of(f), ks, old', f);
    }
  }

  lemma LocksInside(v: Pair, w: Pair, ks: seq<Key>, f: Family)
    requires LocksOnly(v, w)
    ensures SameInside(v.Of(f), w.Of(f), ks)
  {
    hide MoreLocks, SameInside;
    LocksSameInside(v.Of(f), w.Of(f), ks);
  }

  /** Over every run each site shows the last update that was accepted for it, whatever came for it and
      for the other sites since. */
  lemma {:induction false} RunShowsLast(run: seq<Moment>, sites: seq<Site>, ms: seq<Arrival>, xs: seq<Answer>,
                                        i: nat, n: nat)
    requires Sound(ms) && IsRun(run, sites, ms, xs) && Laid(run[0].tables, sites) && n <= |ms|
    requires LastAccepted(xs[..n], i)
    ensures xs[i].site < |sites| && xs[i].site < |run[i].sites|
    ensures Latest(run[n], xs[i].site, sites[xs[i].site].eids, ms[i], run[i].sites[xs[i].site].key)
    decreases n
  {
    hide Laid, Step, Latest, FamilyKeys;
    assert Step(run[n - 1], run[n], sites, ms[n - 1], xs[n - 1]);
    if i == n - 1 {
      UpdateShown(run[i], run[n], sites, ms[i], xs[i]);
    } else {
      assert LastAccepted(xs[..n - 1], i);
      RunShowsLast(run, sites, ms, xs, i, n - 1);
      LaidAlong(run, sites, ms, xs, n - 1);
      assert xs[..n][n - 1] == xs[n - 1];
      LatestStays(run[n - 1], run[n], sites, ms[n - 1], xs[n - 1], xs[i].site, ms[i], run[i].sites[xs[i].site].key);
    }
  }

  /** An entry is there in both tables or in neither, and only its lock count may differ. */
  ghost predicate SameEntry(v: View, w: View, x: Key) {
    (x in v <==> x in w) && (x in v && x in w ==> w[x] == v[x].(lock := w[x].lock))
  }

  /** Over every run nothing but locks changes outside the prefixes of the sites that were updated. */
  lemma {:induction false} RunElsewhere(run: seq<Moment>, sites: seq<Site>, ms: seq<Arrival>, xs: seq<Answer>,
                                        f: Family, x: Key, n: nat)
    requires Sound(ms) && IsRun(run, sites, ms, xs) && n <= |ms|
    requires forall j | 0 <= j < n && xs[j].rt == 1 ::
      xs[j].site < |sites| && !Inside(SetOf(FamilyKeys(sites[xs[j].site].eids, f)), x)
    ensures SameEntry(run[0].tables.Of(f), run[n].tables.Of(f), x)
    decreases n
  {
    hide Step, Inside, SetOf, FamilyKeys;
    if n > 0 {
      RunElsewhere(run, sites, ms, xs, f, x, n - 1);
      assert Step(run[n - 1], run[n], sites, ms[n - 1], xs[n - 1]);
      StepElsewhere(run[n - 1], run[n], sites, ms[n - 1], xs[n - 1], f, x);
    }
  }

  lemma StepElsewhere(a: Moment, b: Moment, sites: seq<Site>, m: Arrival, y: Answer, f: Family, x: Key)
    requires |m.pk.auth| <= 20 && Step(a, b, sites, m, y)
    requires y.rt == 1 ==> y.site < |sites| && !Inside(SetOf(FamilyKeys(sites[y.site].eids, f)), x)
    ensures SameEntry(a.tables.Of(f), b.tables.Of(f), x)
  {
    hide Inside, SetOf, FamilyKeys, Decided, SameEids, HasKey, Carried, Bare, IsMapping;
  }

  // ---------- what a lookup finds ----------

  ghost function NamedKeys(rs: seq<MapRecord>, f: Family): set<Key> {
    set r | r in rs && r.eid.family == f :: KeyOf(r.eid)
  }

  /** Inside a site `db_node_match` looks among the prefixes of its message. */
  lemma MatchNamed(v: View, ks: seq<Key>, m: Arrival, f: Family, q: Key, r: Option<Key>)
    requires Showing(v, ks, m, f) && AllInside(ks, m.rs, f) && IsLongest(WithInfo(v), q, r)
    ensures (exists k :: k in NamedKeys(m.rs, f) && k <= q) ==> IsLongest(NamedKeys(m.rs, f), q, r)
    ensures (forall k | k in NamedKeys(m.rs, f) :: !(k <= q)) ==> r == None || !Inside(SetOf(ks), r.value)
  {
    hide KeyOf, Carried, IsMapping;
    var named := NamedKeys(m.rs, f);
    forall x ensures x in named <==> Inside(SetOf(ks), x) && x in WithInfo(v) {
      NamedIs(m.rs, f, x);
      if HasKey(m.rs, f, x) {
        NamedInside(ks, m.rs, f, x);
      }
    }
    if k :| k in named && k <= q {
      assert k in WithInfo(v) && k <= r.value;
      LongerInside(ks, k, r.value);
    }
  }

  lemma NamedIs(rs: seq<MapRecord>, f: Family, x: Key)
    ensures x in NamedKeys(rs, f) <==> HasKey(rs, f, x)
  {
    hide KeyOf;
  }

  lemma NamedInside(ks: seq<Key>, rs: seq<MapRecord>, f: Family, x: Key)
    requires AllInside(ks, rs, f) && HasKey(rs, f, x)
    ensures Inside(SetOf(ks), x)
  {
    hide KeyOf, Inside;
  }

  lemma LongerInside(ks: seq<Key>, k: Key, x: Key)
    requires Inside(SetOf(ks), k) && k <= x
    ensures Inside(SetOf(ks), x)
  {
  }

  /** The last record of a message for a prefix. */
  lemma {:induction false} LastRecord(rs: seq<MapRecord>, f: Family, k: Key) returns (i: nat)
    requires HasKey(rs, f, k)
    ensures IsLast(rs, f, i) && KeyOf(rs[i].eid) == k
  {
    hide KeyOf;
    var n := |rs| - 1;
    if rs[n].eid.family == f && KeyOf(rs[n].eid) == k {
      i := n;
    } else {
      assert HasKey(rs[..n], f, k) by {
        var r :| r in rs && r.eid.family == f && KeyOf(r.eid) == k;
        assert r in rs[..n];
      }
      i := LastRecord(rs[..n], f, k);
    }
  }

  /** Over every run an address inside a prefix of a site's last update is looked up as that message
      says: the longest of its prefixes is found, with what its last record for it carries. */
  lemma RunMatch(run: seq<Moment>, sites: seq<Site>, ms: seq<Arrival>, xs: seq<Answer>, i: nat, n: nat, f: Family,
                 q: Key, r: Option<Key>) returns (j: nat)
    requires Sound(ms) && IsRun(run, sites, ms, xs) && Laid(run[0].tables, sites) && n <= |ms|
    requires LastAccepted(xs[..n], i) && IsLongest(WithInfo(run[n].tables.Of(f)), q, r)
    requires exists k :: k in NamedKeys(ms[i].rs, f) && k <= q
    ensures IsLongest(NamedKeys(ms[i].rs, f), q, r)
    ensures IsLast(ms[i].rs, f, j) && Some(KeyOf(ms[i].rs[j].eid)) == r
    ensures Stands(run[n].tables.Of(f), ms[i].rs[j], ms[i].proxy)
  {
    hide Step, KeyOf, Stands, Carries, RecOf, SameEids, IsLongest, NamedKeys, FamilyKeys, SiteKeys, AllOf, Hashing;
    RunShowsLast(run, sites, ms, xs, i, n);
    LaidAlong(run, sites, ms, xs, n);
    var site, v := xs[i].site, run[n].tables;
    var ks := FamilyKeys(sites[site].eids, f);
    assert Showing(v.Of(f), ks, ms[i], f) && SiteKeys(v.Of(f), ks, site);
    AllOfIn(v, ms[i].rs, f, site);
    OwnInside(v.Of(f), ks, site, ms[i].rs, f);
    MatchNamed(v.Of(f), ks, ms[i], f, q, r);
    LongestIn(NamedKeys(ms[i].rs, f), q, r);
    NamedIs(ms[i].rs, f, r.value);
    j := LastRecord(ms[i].rs, f, r.value);
  }

  lemma LongestIn(keys: set<Key>, q: Key, r: Option<Key>)
    requires IsLongest(keys, q, r) && exists k :: k in keys && k <= q
    ensures r.Some? && r.value in keys
  {
  }

  /** A key of less than 128 characters lasts. */
  lemma {:induction false} RunKeepsKeys(run: seq<Moment>, sites: seq<Site>, ms: seq<Arrival>, xs: seq<Answer>,
                                        s: nat, n: nat)
    requires Sound(ms) && IsRun(run, sites, ms, xs) && n <= |ms| && s < |run[0].sites|
    requires KeyLoss.IsString(run[0].sites[s].key) && |run[0].sites[s].key| < 128
    ensures |run[n].sites| == |run[0].sites| && run[n].sites[s].key == run[0].sites[s].key
    decreases n
  {
    hide Step, KeyLoss.IsString;
    if n > 0 {
      assert Step(run[n - 1], run[n], sites, ms[n - 1], xs[n - 1]);
      RunKeepsKeys(run, sites, ms, xs, s, n - 1);
      StepSite(run[n - 1], run[n], sites, ms[n - 1], xs[n - 1], s);
    }
  }

  /** The last update of a site, sent again with another nonce at any later time, is answered 0 and
      changes nothing but locks, if the site's key has less than 128 characters. */
  lemma RunKnowsLast(run: seq<Moment>, sites: seq<Site>, ms: seq<Arrival>, xs: seq<Answer>, i: nat, n: nat)
    requires Sound(ms) && IsRun(run, sites, ms, xs) && Laid(run[0].tables, sites) && n < |ms|
    requires LastAccepted(xs[..n], i) && ms[n].rs == ms[i].rs && SameButNonce(ms[i].pk, ms[n].pk)
    requires xs[i].site < |run[0].sites| && |run[0].sites[xs[i].site].key| < 128
    requires KeyLoss.IsString(run[0].sites[xs[i].site].key)
    ensures xs[n] == Answer(0, xs[i].site) && LocksOnly(run[n].tables, run[n + 1].tables)
    ensures run[n + 1].sites == run[n].sites
  {
    hide Laid, FamilyKeys, SameEids, LocksOnly, Replaced, Carried, Showing, KeyLoss.IsString, AllOf, Verdict,
      AfterCompare, Hashing, Decided, OnlyKeyLost;
    var s, t := xs[i].site, run[n];
    RunShowsLast(run, sites, ms, xs, i, n);
    RunKeepsKeys(run, sites, ms, xs, s, i);
    RunKeepsKeys(run, sites, ms, xs, s, n);
    assert Step(run[n], run[n + 1], sites, ms[n], xs[n]);
    ResentVerdict(t.sites[s], t.sites[s].key, ms[i].pk, ms[n].pk);
    OnlyLast(t.tables, t.sites, run[n + 1].sites, Eids(ms[n].rs), ms[n].pk, xs[n].rt, xs[n].site, s);
    OnlyThisKey(t.sites, run[n + 1].sites, s);
  }

  lemma OnlyThisKey(before: seq<SiteState>, after: seq<SiteState>, last: nat)
    requires OnlyKeyLost(before, after, last) && |before[last].key| < 128
    ensures after == before
  {
  }

  // ---------- the code ----------

  lemma ServingLaid(d: Db, sites: seq<Site>)
    requires Serving(d, sites)
    ensures Laid(Contents(d), sites)
  {
    hide Standing, FamilyKeys, SiteKeys, Separate, Configured;
    forall f, a, b | 0 <= a < |sites| && 0 <= b < |sites| && a != b
      ensures Separate(FamilyKeys(sites[a].eids, f), FamilyKeys(sites[b].eids, f)) {
      if f == IPv4 {
        SitesSeparate(d.four.shape, d.four.view, IPv4, sites, a, b);
      } else {
        SitesSeparate(d.six.shape, d.six.view, IPv6, sites, a, b);
      }
    }
    forall f, a | 0 <= a < |sites| ensures SiteKeys(Contents(d).Of(f), FamilyKeys(sites[a].eids, f), a) {
      if f == IPv4 {
        assert Owns(d.four.shape, d.four.view, IPv4, sites[a].eids, a);
      } else {
        assert Owns(d.six.shape, d.six.view, IPv6, sites[a].eids, a);
      }
    }
  }

  /** What a message needs to be hashed. */
  predicate Hashable(ms: seq<Arrival>) {
    forall m | m in ms :: |m.pk.auth| <= 20 && |Blank(m.pk, true)| + 64 <= 0x1_0000_0000
  }

  ghost function Now(d: Db, sites: seq<Site>): Moment
    reads d.four`view, d.six`view, sites, set s | s in sites :: s.key
  {
    Moment(Contents(d), States(sites))
  }

  lemma OneStep(a: Moment, b: Moment, sites: seq<Site>, m: Arrival, rt: int, site: nat, u: Pair)
    requires |m.pk.auth| <= 20 && Decided(a.tables, a.sites, b.sites, Eids(m.rs), m.pk, rt, site)
    requires Outcome(a.tables, u, b.tables, sites, m.rs, m.proxy, rt, site)
    ensures Step(a, b, sites, m, Answer(rt, site))
  {
    hide Decided, SameEids, LocksOnly, FamilyKeys, Replaced, Carried, Became, MoreLocks;
  }

  /** Any sequence of Map-Registers. */
  method Serve(d: Db, sites: seq<Site>, ms: seq<Arrival>) returns (xs: seq<Answer>, ghost run: seq<Moment>)
    requires Serving(d, sites) && Hashable(ms)
    requires Keyring(sites) && forall s | s in sites :: s.key.Length + 128 <= 0x1_0000_0000
    modifies d.four, d.six, d.four.shape.Keys, d.six.shape.Keys, sites, set s | s in sites :: s.key
    ensures Serving(d, sites) && Keyring(sites) && IsRun(run, sites, ms, xs)
    ensures run[0] == old(Now(d, sites)) && Laid(run[0].tables, sites) && run[|ms|] == Now(d, sites)
    ensures forall f, n | n in d.Of(f).shape :: n in old(d.Of(f).shape) || fresh(n)
  {
    hide Serving, Keyring, Blank, Laid, Decided, Outcome, States, AllOf, Step;
    ServingLaid(d, sites);
    xs, run := [], [Now(d, sites)];
    for i := 0 to |ms|
      invariant Serving(d, sites) && Keyring(sites) && |xs| == i && |run| == i + 1
      invariant run[0] == old(Now(d, sites)) && run[i] == Now(d, sites)
      invariant forall j | 0 <= j < i :: Step(run[j], run[j + 1], sites, ms[j], xs[j])
      invariant forall f, n | n in d.Of(f).shape :: n in old(d.Of(f).shape) || fresh(n)
    {
      assert d.Of(IPv4) == d.four && d.Of(IPv6) == d.six;
      var rt, site, u := Register(d, sites, ms[i].rs, ms[i].proxy, ms[i].pk);
      OneStep(run[i], Now(d, sites), sites, ms[i], rt, site, u);
      xs, run := xs + [Answer(rt, site)], run + [Now(d, sites)];
    }
  }

  // ---------- the configuration ----------

  /** A `site` element. */
  datatype SiteConfig = SiteConfig(key: Bytes, eids: seq<Prefix>)

  /** No prefix overlaps another, within a site or across sites. */
  ghost predicate NoOverlap(cs: seq<SiteConfig>) {
    && (forall f, i, j | 0 <= i < j < |cs| :: Separate(KeysOfPrefixes(cs[i].eids, f), KeysOfPrefixes(cs[j].eids, f)))
    && (forall f, i | 0 <= i < |cs| :: OneByOne(KeysOfPrefixes(cs[i].eids, f)))
  }

  ghost predicate OneByOne(ks: seq<Key>) {
    forall a, b | 0 <= a < b < |ks| :: !Overlap(ks[a], ks[b])
  }

  /** The tables after all elements, if the test accepts all their prefixes. */
  ghost function Layout(v: Pair, cs: seq<SiteConfig>, id: nat): Option<Pair>
    decreases |cs|
  {
    if cs == [] then Some(v)
    else if Elements(v, cs[0].eids, id) == None then None
    else Layout(Elements(v, cs[0].eids, id).value, cs[1..], id + 1)
  }

  lemma LayoutStep(v: Pair, cs: seq<SiteConfig>, i: nat)
    requires i < |cs|
    ensures Layout(v, cs[i..], i)
      == if Elements(v, cs[i].eids, i) == None then None
         else Layout(Elements(v, cs[i].eids, i).value, cs[i + 1..], i + 1)
  {
    hide Elements;
    assert cs[i..][0] == cs[i] && cs[i..][1..] == cs[i + 1..];
  }

  /** The configured prefixes of a table are those of the first n elements. */
  ghost predicate FromFirst(es: set<Key>, cs: seq<SiteConfig>, n: nat, f: Family)
    requires n <= |cs|
  {
    forall e | e in es :: exists j :: 0 <= j < n && e in KeysOfPrefixes(cs[j].eids, f)
  }

  lemma NextApart(v: View, cs: seq<SiteConfig>, n: nat, f: Family)
    requires n < |cs| && NoOverlap(cs) && FromFirst(EidKeys(v), cs, n, f)
    ensures Apart(v, KeysOfPrefixes(cs[n].eids, f))
  {
    hide KeysOfPrefixes, EidKeys, Overlap;
    var ks := KeysOfPrefixes(cs[n].eids, f);
    assert OneByOne(ks);
    forall k, e | k in ks && e in EidKeys(v) ensures !Overlap(e, k) {
      var j :| 0 <= j < n && e in KeysOfPrefixes(cs[j].eids, f);
      assert Separate(KeysOfPrefixes(cs[j].eids, f), ks);
    }
  }

  lemma MoreFromFirst(es: set<Key>, cs: seq<SiteConfig>, n: nat, f: Family)
    requires n < |cs| && FromFirst(es, cs, n, f)
    ensures FromFirst(es + SetOf(KeysOfPrefixes(cs[n].eids, f)), cs, n + 1, f)
  {
    hide KeysOfPrefixes;
  }

  /** The sites as they were configured. */
  ghost predicate AsConfigured(sites: seq<Site>, cs: seq<SiteConfig>)
    reads sites, set s | s in sites :: s.key
  {
    |sites| <= |cs| && forall i | 0 <= i < |sites| ::
      sites[i].State() == SiteState(KeyLoss.Str(cs[i].key), None) && sites[i].key.Length == |cs[i].key| + 1
      && forall f :: FamilyKeys(sites[i].eids, f) == KeysOfPrefixes(cs[i].eids, f)
  }

  /** The first elements are configured. */
  ghost predicate Configuring(d: Db, sites: seq<Site>, cs: seq<SiteConfig>)
    reads d.four, d.six, d.four.shape.Keys, d.six.shape.Keys, sites, set s | s in sites :: s.key
  {
    Serving(d, sites) && Keyring(sites) && AsConfigured(sites, cs)
    && forall f :: FromFirst(EidKeys(Contents(d).Of(f)), cs, |sites|, f) && NoMappings(Contents(d).Of(f))
  }

  /** Nothing has been registered. */
  ghost predicate NoMappings(v: View) {
    MappKeys(v) == {} && WithInfo(v) == {}
  }

  lemma NextConfigured(sites: seq<Site>, cs: seq<SiteConfig>, site: Site)
    requires |sites| < |cs| && AsConfigured(sites, cs)
    requires site.State() == SiteState(KeyLoss.Str(cs[|sites|].key), None)
    requires site.key.Length == |cs[|sites|].key| + 1
    requires forall f :: FamilyKeys(site.eids, f) == KeysOfPrefixes(cs[|sites|].eids, f)
    ensures AsConfigured(With(sites, site), cs)
  {
    hide KeysOfPrefixes, FamilyKeys, KeyLoss.Str;
    forall i | 0 <= i < |sites| + 1
      ensures With(sites, site)[i].State() == SiteState(KeyLoss.Str(cs[i].key), None)
      ensures With(sites, site)[i].key.Length == |cs[i].key| + 1
      ensures forall f :: FamilyKeys(With(sites, site)[i].eids, f) == KeysOfPrefixes(cs[i].eids, f)
    {
      if i < |sites| {
        assert With(sites, site)[i] == sites[i];
      }
    }
  }

  /** One more site, if the test accepts its prefixes. */
  method ConfigureNext(d: Db, sites: seq<Site>, cs: seq<SiteConfig>) returns (site: Site?)
    requires NoOverlap(cs) && |sites| < |cs| && Configuring(d, sites, cs)
    modifies d.four, d.six, d.four.shape.Keys, d.six.shape.Keys
    ensures site == null <==> Elements(old(Contents(d)), cs[|sites|].eids, |sites|) == None
    ensures site != null ==> fresh(site) && fresh(site.key) && Configuring(d, With(sites, site), cs)
    ensures site != null ==> Elements(old(Contents(d)), cs[|sites|].eids, |sites|) == Some(Contents(d))
    ensures forall f, n | n in d.Of(f).shape :: n in old(d.Of(f).shape) || fresh(n)
  {
    hide Serving, Keyring, NoOverlap, Elements, KeysOfPrefixes, EidKeys, FromFirst, SetOf, FamilyKeys, Apart,
      KeyLoss.Str, AsConfigured, MappKeys, WithInfo;
    var n := |sites|;
    ghost var v := Contents(d);
    forall f ensures Apart(v.Of(f), KeysOfPrefixes(cs[n].eids, f))
      && FromFirst(EidKeys(v.Of(f)) + SetOf(KeysOfPrefixes(cs[n].eids, f)), cs, n + 1, f) {
      NextApart(v.Of(f), cs, n, f);
      MoreFromFirst(EidKeys(v.Of(f)), cs, n, f);
    }
    assert v.Of(IPv4) == d.four.view && v.Of(IPv6) == d.six.view;
    site := AddSite(d, sites, cs[n].key, cs[n].eids, n);
    if site != null {
      NextConfigured(sites, cs, site);
    }
  }

  /** The whole configuration: all its sites, unless a prefix is refused. */
  method Configure(cs: seq<SiteConfig>) returns (d: Db, sites: seq<Site>, ok: bool)
    requires NoOverlap(cs)
    ensures fresh(d.four) && fresh(d.six) && (forall f, n | n in d.Of(f).shape :: fresh(n))
    ensures forall s | s in sites :: fresh(s) && fresh(s.key)
    ensures ok <==> Layout(Pair(EMPTY, EMPTY), cs, 0) != None
    ensures ok ==> Layout(Pair(EMPTY, EMPTY), cs, 0) == Some(Contents(d))
    ensures ok ==> Serving(d, sites) && Keyring(sites) && |sites| == |cs| && AsConfigured(sites, cs)
    ensures ok ==> forall f :: NoMappings(Contents(d).Of(f))
  {
    hide Serving, Keyring, NoOverlap, Layout, Elements, EidKeys, FromFirst, AsConfigured, NoMappings;
    d := NewServer();
    sites := [];
    assert cs[0..] == cs;
    NoneYet(cs);
    for i := 0 to |cs|
      invariant fresh(d.four) && fresh(d.six) && (forall f, n | n in d.Of(f).shape :: fresh(n))
      invariant |sites| == i && forall j | 0 <= j < i :: fresh(sites[j]) && fresh(sites[j].key)
      invariant Configuring(d, sites, cs)
      invariant Layout(Pair(EMPTY, EMPTY), cs, 0) == Layout(Contents(d), cs[i..], i)
    {
      LayoutStep(Contents(d), cs, i);
      assert d.Of(IPv4) == d.four && d.Of(IPv6) == d.six;
      var site := ConfigureNext(d, sites, cs);
      if site == null {
        return d, sites, false;
      }
      sites := With(sites, site);
    }
    ok := true;
  }

  lemma NoneYet(cs: seq<SiteConfig>)
    ensures Keyring([]) && AsConfigured([], cs) && (forall f :: FromFirst({}, cs, 0, f)) && NoMappings(EMPTY)
    ensures forall v: Pair :: Layout(v, cs[|cs|..], |cs|) == Some(v)
  {
  }

  // ---------- the whole life ----------

  /** At the end of a run every site shows its last update. */
  ghost predicate ShowsAll(run: seq<Moment>, sites: seq<Site>, ms: seq<Arrival>, xs: seq<Answer>)
    requires Sound(ms) && IsRun(run, sites, ms, xs)
  {
    forall i: nat | LastAccepted(xs, i) :: xs[i].site < |sites| && xs[i].site < |run[i].sites|
      && Latest(run[|ms|], xs[i].site, sites[xs[i].site].eids, ms[i], run[i].sites[xs[i].site].key)
  }

  lemma RunShowsAll(run: seq<Moment>, sites: seq<Site>, ms: seq<Arrival>, xs: seq<Answer>)
    requires Sound(ms) && IsRun(run, sites, ms, xs) && Laid(run[0].tables, sites)
    ensures ShowsAll(run, sites, ms, xs)
  {
    hide Laid, Step, Latest, FamilyKeys;
    assert xs[..|ms|] == xs;
    forall i: nat | LastAccepted(xs, i) ensures xs[i].site < |sites| && xs[i].site < |run[i].sites|
      && Latest(run[|ms|], xs[i].site, sites[xs[i].site].eids, ms[i], run[i].sites[xs[i].site].key) {
      RunShowsLast(run, sites, ms, xs, i, |ms|);
    }
  }

  /** The keys of a run that starts with the configuration: those of less than 128 characters last. */
  ghost predicate KeysLast(run: seq<Moment>, cs: seq<SiteConfig>) {
    forall i, s | 0 <= i < |run| && 0 <= s < |cs| && |cs[s].key| < 128 ::
      s < |run[i].sites| && run[i].sites[s].key == KeyLoss.Str(cs[s].key)
  }

  lemma ConfiguredKeysLast(run: seq<Moment>, sites: seq<Site>, ms: seq<Arrival>, xs: seq<Answer>, cs: seq<SiteConfig>)
    requires Sound(ms) && IsRun(run, sites, ms, xs) && |run[0].sites| == |cs|
    requires forall s | 0 <= s < |cs| :: run[0].sites[s] == SiteState(KeyLoss.Str(cs[s].key), None)
    ensures KeysLast(run, cs)
  {
    hide Step, KeyLoss.Str, KeyLoss.IsString;
    forall i, s | 0 <= i < |run| && 0 <= s < |cs| && |cs[s].key| < 128
      ensures s < |run[i].sites| && run[i].sites[s].key == KeyLoss.Str(cs[s].key)
    {
      KeyLoss.StrIsString(cs[s].key);
      RunKeepsKeys(run, sites, ms, xs, s, i);
    }
  }

  /** A configuration, then any sequence of Map-Registers: each site shows the last update that was
      accepted for it. */
  method Live(cs: seq<SiteConfig>, ms: seq<Arrival>)
    returns (d: Db, sites: seq<Site>, ok: bool, xs: seq<Answer>, ghost run: seq<Moment>)
    requires NoOverlap(cs) && Hashable(ms) && forall c | c in cs :: |c.key| + 129 <= 0x1_0000_0000
    ensures ok <==> Layout(Pair(EMPTY, EMPTY), cs, 0) != None
    ensures ok ==> Serving(d, sites) && Keyring(sites) && |sites| == |cs|
    ensures ok ==> IsRun(run, sites, ms, xs) && Some(run[0].tables) == Layout(Pair(EMPTY, EMPTY), cs, 0)
    ensures ok ==> run[|ms|] == Now(d, sites) && ShowsAll(run, sites, ms, xs) && KeysLast(run, cs)
  {
    hide Serving, Keyring, NoOverlap, Layout, Blank, Laid, Step, FamilyKeys, KeysOfPrefixes, ShowsAll, KeysLast,
      KeyLoss.Str;
    xs, run := [], [];
    d, sites, ok := Configure(cs);
    if ok {
      assert d.Of(IPv4) == d.four && d.Of(IPv6) == d.six;
      AsConfiguredNow(d, sites, cs);
      xs, run := Serve(d, sites, ms);
      RunShowsAll(run, sites, ms, xs);
      ConfiguredKeysLast(run, sites, ms, xs, cs);
    }
  }

  lemma AsConfiguredNow(d: Db, sites: seq<Site>, cs: seq<SiteConfig>)
    requires AsConfigured(sites, cs) && |sites| == |cs| && forall c | c in cs :: |c.key| + 129 <= 0x1_0000_0000
    ensures |Now(d, sites).sites| == |cs|
    ensures forall s | 0 <= s < |cs| :: Now(d, sites).sites[s] == SiteState(KeyLoss.Str(cs[s].key), None)
    ensures forall s | s in sites :: s.key.Length + 128 <= 0x1_0000_0000
  {
    hide FamilyKeys, KeysOfPrefixes, KeyLoss.Str;
    forall s | s in sites ensures s.key.Length + 128 <= 0x1_0000_0000 {
      var i :| 0 <= i < |sites| && sites[i] == s;
      assert cs[i] in cs;
    }
  }
}
