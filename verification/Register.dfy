/** What a Map-Register does to the contents of a table (udp.c): validation against the
    configured EID prefixes, the removal of a site's mappings, and the new ones. */
module Registers {
  import opened Types
  import opened Bits
  import opened Views
  import opened Lookups

  // ---------- configured prefixes and their sites ----------

  /** The test `ms_node_is_type(node, _EID)`. */
  predicate IsEid(e: Entry) {
    e.flags.Some? && Eid in e.flags.value.range
  }

  ghost function EidKeys(v: View): set<Key> {
    set k | k in v && IsEid(v[k])
  }

  ghost predicate IsMapping(e: Entry) {
    e.flags.Some? && Mapp in e.flags.value.range
  }

  ghost function MappKeys(v: View): set<Key> {
    set k | k in v && IsMapping(v[k])
  }

  ghost predicate Inside(es: set<Key>, k: Key) {
    exists e | e in es :: e <= k
  }

  /** The configured EID prefixes are pairwise disjoint. */
  ghost predicate Disjoint(es: set<Key>) {
    forall a, b | a in es && b in es && a != b :: !Overlap(a, b)
  }

  /** The site of an address prefix as `_ms_validate_eid` finds it: that of the longest configured
      prefix that covers it, the root excepted. */
  ghost predicate SiteOf(v: View, q: Key, site: Option<nat>) {
    exists r :: IsLongest(EidKeys(v) - {[]}, q, r)
      && site == if r == None then None else SiteAt(v, r.value)
  }

  /** A configured prefix of a site, the root excepted, by its fields. */
  ghost predicate OwnedBy(v: View, e: Key, s: nat) {
    e in v && e != [] && v[e].flags.Some? && Eid in v[e].flags.value.range && v[e].flags.value.site == Some(s)
  }

  ghost predicate LongestEid(v: View, q: Key, e: Key) {
    e <= q && forall d | d in v && d != [] && d <= q && v[d].flags.Some? && Eid in v[d].flags.value.range :: d <= e
  }

  /** A site is found exactly if the longest configured prefix that covers the key, the root excepted, is
      one of its own. */
  lemma SiteOfMeans(v: View, q: Key, s: nat)
    ensures SiteOf(v, q, Some(s)) <==> exists e :: OwnedBy(v, e, s) && LongestEid(v, q, e)
  {
    var es := EidKeys(v) - {[]};
    if SiteOf(v, q, Some(s)) {
      var r :| IsLongest(es, q, r) && Some(s) == if r == None then None else SiteAt(v, r.value);
      forall d | d in v && d != [] && d <= q && v[d].flags.Some? && Eid in v[d].flags.value.range
        ensures d <= r.value {
        assert d in es;
      }
      assert OwnedBy(v, r.value, s) && LongestEid(v, q, r.value);
    }
    if e :| OwnedBy(v, e, s) && LongestEid(v, q, e) {
      var r := Some(e);
      assert IsLongest(es, q, r) && Some(s) == if r == None then None else SiteAt(v, r.value);
    }
  }

  /** The site pointer of a stored prefix. */
  ghost function SiteAt(v: View, k: Key): Option<nat> {
    if k in v && v[k].flags.Some? then v[k].flags.value.site else None
  }

  // ---------- removing a site's mappings ----------

  /** The `range` byte without `_MAPP`, unless it is nothing else: the source compares the byte
      with `_MAPP`. */
  function WithoutMapp(range: set<Role>): set<Role> {
    if range - {Mapp} != {} then range - {Mapp} else range
  }

  function CleanFlags(f: Option<Flags>): Option<Flags> {
    match f
    case None => None
    case Some(x) => Some(Flags(WithoutMapp(x.range), 0, false, 0, false, 0, 0, false, x.site))
  }

  function CleanEntry(e: Entry): Entry {
    e.(info := None, flags := CleanFlags(e.flags))
  }

  /** Everything strictly below a configured prefix goes, and the prefix is reset. */
  ghost function AfterClean(v: View, k: Key): View
    requires k in v
  {
    (map x | x in v && !(k < x) :: v[x])[k := CleanEntry(v[k])]
  }

  ghost predicate Cleanable(v: View, ks: seq<Key>)
    decreases |ks|
  {
    ks == [] || (ks[0] in v && v[ks[0]].lock > 0 && Cleanable(AfterClean(v, ks[0]), ks[1..]))
  }

  /** `_ms_clean_site_mapping`: the same for every prefix of the site. */
  ghost function AfterCleanAll(v: View, ks: seq<Key>): View
    requires Cleanable(v, ks)
    decreases |ks|
  {
    if ks == [] then v else AfterCleanAll(AfterClean(v, ks[0]), ks[1..])
  }

  ghost function NotBelow(s: set<Key>, k: Key): set<Key> {
    set x | x in s && !(k < x)
  }

  lemma CutMeetsStay(s: set<Key>, k: Key, x: Key)
    requires k in s && x in Meets(s) && !(k < x)
    ensures x in Meets(NotBelow(s, k))
  {
    var a, b :| a in s && b in s && x == Lcp(a, b);
    CutMeet(k, a, b);
    hide Lcp;
  }

  lemma CutMeetsCome(s: set<Key>, k: Key, x: Key)
    requires x in Meets(NotBelow(s, k))
    ensures x in Meets(s) && !(k < x)
  {
    var a, b :| a in NotBelow(s, k) && b in NotBelow(s, k) && x == Lcp(a, b);
    assert x <= a && !(k < a);
    hide Lcp;
  }

  lemma CleanKeys(v: View, k: Key)
    requires k in v && v[k].lock > 0
    ensures AfterClean(v, k).Keys == NotBelow(v.Keys, k)
    ensures forall x | x in AfterClean(v, k) && x != k :: x in v && AfterClean(v, k)[x] == v[x]
    ensures k in AfterClean(v, k) && AfterClean(v, k)[k] == CleanEntry(v[k])
  {
  }

  lemma CleanLocked(v: View, k: Key)
    requires k in v && v[k].lock > 0
    ensures Locked(AfterClean(v, k)) == NotBelow(Locked(v), k)
  {
    hide AfterClean;
    CleanKeys(v, k);
  }

  lemma CutMeets(s: set<Key>, k: Key)
    requires k in s
    ensures Meets(NotBelow(s, k)) == NotBelow(Meets(s), k)
  {
    hide Meets;
    forall x ensures x in Meets(NotBelow(s, k)) <==> x in NotBelow(Meets(s), k) {
      if x in Meets(NotBelow(s, k)) {
        CutMeetsCome(s, k, x);
      }
      if x in Meets(s) && !(k < x) {
        CutMeetsStay(s, k, x);
      }
    }
  }

  /** Cutting off what lies strictly below a locked prefix leaves a canonical table. */
  lemma CleanKeepsCanonical(v: View, k: Key)
    requires Canonical(v) && k in v && v[k].lock > 0
    ensures Canonical(AfterClean(v, k))
  {
    hide Meets, Locked, NotBelow, AfterClean;
    LockedHas(v, k);
    CleanKeys(v, k);
    CleanLocked(v, k);
    CutMeets(Locked(v), k);
  }

  lemma LockedHas(v: View, k: Key)
    requires k in v && v[k].lock > 0
    ensures k in Locked(v)
  {
  }

  /** A meet that is not strictly below k does not change when its arguments below k move up to k. */
  lemma CutMeet(k: Key, a: Key, b: Key)
    requires !(k < Lcp(a, b))
    ensures Lcp(a, b) == Lcp(if k < a then k else a, if k < b then k else b)
  {
    var m := Lcp(a, b);
    var c, d := if k < a then k else a, if k < b then k else b;
    if k < a {
      assert m <= k by { assert m <= a; }
    }
    if k < b {
      assert m <= k by { assert m <= b; }
    }
    LcpUnique(m, c, d);
  }

  ghost predicate BelowAny(ks: seq<Key>, x: Key) {
    exists k | k in ks :: k < x
  }

  /** The prefixes of a site: locked in the table, different and disjoint. */
  ghost predicate Configured(v: View, ks: seq<Key>) {
    && (forall k | k in ks :: k in v && v[k].lock > 0 && IsEid(v[k]))
    && (forall i, j | 0 <= i < j < |ks| :: !Overlap(ks[i], ks[j]))
  }

  lemma ConfiguredRest(v: View, ks: seq<Key>)
    requires Configured(v, ks) && ks != []
    ensures Configured(AfterClean(v, ks[0]), ks[1..])
  {
    forall k | k in ks[1..] ensures k in ks && !Overlap(ks[0], k) {
      var i :| 1 <= i < |ks| && ks[i] == k;
    }
  }

  /** What is left after a site has been cleaned. */
  lemma {:induction false} CleanAllEffect(v: View, ks: seq<Key>)
    requires Canonical(v) && Configured(v, ks)
    ensures Cleanable(v, ks) && Canonical(AfterCleanAll(v, ks))
    ensures forall x :: x in AfterCleanAll(v, ks) <==> x in v && !BelowAny(ks, x)
    ensures forall x | x in AfterCleanAll(v, ks) ::
      AfterCleanAll(v, ks)[x] == if x in ks then CleanEntry(v[x]) else v[x]
    decreases |ks|
  {
    hide Canonical, CleanEntry, AfterClean;
    if ks != [] {
      var w := AfterClean(v, ks[0]);
      CleanKeys(v, ks[0]);
      CleanKeepsCanonical(v, ks[0]);
      ConfiguredRest(v, ks);
      CleanAllEffect(w, ks[1..]);
      FirstApart(v, ks);
      forall x ensures BelowAny(ks, x) <==> ks[0] < x || BelowAny(ks[1..], x) {
        BelowSplit(ks, x);
      }
      assert forall x :: x in ks <==> x == ks[0] || x in ks[1..];
    }
  }

  lemma FirstApart(v: View, ks: seq<Key>)
    requires Configured(v, ks) && ks != []
    ensures ks[0] !in ks[1..] && !BelowAny(ks[1..], ks[0])
    ensures forall x | x in ks[1..] :: !(ks[0] < x)
  {
    forall x | x in ks[1..] ensures !Overlap(ks[0], x) {
      var i :| 1 <= i < |ks| && ks[i] == x;
    }
  }

  lemma BelowSplit(ks: seq<Key>, x: Key)
    requires ks != []
    ensures BelowAny(ks, x) <==> ks[0] < x || BelowAny(ks[1..], x)
  {
    assert ks[0] in ks && forall k | k in ks[1..] :: k in ks;
    assert forall k | k in ks && k != ks[0] :: k in ks[1..];
  }

  // ---------- a new mapping ----------

  /** A record of a Map-Register: its prefix, its locators, and flags of range `_MAPP` alone. */
  datatype Rec = Rec(key: Key, locs: Locs, flags: Flags)

  ghost predicate Registering(r: Rec) {
    r.flags.range == {Mapp} && r.flags.site == None
  }

  /** `generic_mapping_set_flags`: the old range stays on, and so does the site. */
  function Merged(old': Option<Flags>, m: Flags): Flags {
    match old'
    case None => m
    case Some(f) => m.(range := m.range + f.range, site := if m.site == None then f.site else m.site)
  }

  function Mapped(e: Entry, r: Rec): Entry {
    e.(info := Some(r.locs), flags := Some(Merged(e.flags, r.flags)))
  }

  /** `generic_mapping_new`, the flags and the locators. */
  ghost function AfterRecord(v: View, r: Rec): View {
    var w := AfterGet(v, r.key);
    w[r.key := Mapped(Bumped(v, r.key), r)]
  }

  ghost function AfterRecords(v: View, rs: seq<Rec>): View
    decreases |rs|
  {
    if rs == [] then v else AfterRecords(AfterRecord(v, rs[0]), rs[1..])
  }

  lemma GetKeys(v: View, k: Key)
    ensures AfterGet(v, k).Keys == Meets(Locked(v) + {k})
    ensures forall x | x in AfterGet(v, k) ::
      AfterGet(v, k)[x] == if x == k then Bumped(v, k) else if x in v then v[x] else STUB
  {
    hide Meets, Locked, Bumped;
  }

  lemma GetEntries(v: View, k: Key)
    requires Canonical(v)
    ensures k in AfterGet(v, k) && AfterGet(v, k)[k] == Bumped(v, k) && v.Keys <= AfterGet(v, k).Keys
    ensures forall x | x in AfterGet(v, k) && x != k :: AfterGet(v, k)[x] == if x in v then v[x] else STUB
  {
    hide Meets, Locked, Canonical, Bumped, AfterGet;
    GetKeys(v, k);
    LockedAfterGet(v, k);
    MeetsContains(Locked(v) + {k});
  }

  lemma CanonicalKeys(v: View)
    requires Canonical(v)
    ensures v.Keys == Meets(Locked(v))
  {
  }

  /** Outside the configured prefixes a get stores nothing new. */
  lemma StubInside(v: View, es: set<Key>, k: Key, x: Key)
    requires Canonical(v) && es <= Locked(v) && Inside(es, k)
    requires x in AfterGet(v, k) && x !in v
    ensures Inside(es, x)
  {
    hide Meets, Lcp, Locked, Canonical, AfterGet, Bumped;
    var e :| e in es && e <= k;
    assert e in Locked(v);
    var a := LongestMeet(Locked(v), k);
    CanonicalKeys(v);
    GetKeys(v, k);
    MeetsGrow(Locked(v), k, a);
    LcpOfPrefix(e, k);
    assert x == k || x == Lcp(k, a);
    assert e <= Lcp(k, a);
  }

  lemma LcpOfPrefix(e: Key, k: Key)
    requires e <= k
    ensures Lcp(k, e) == e
  {
    LcpUnique(e, k, e);
  }

  /** The same configured prefixes with the same sites. */
  ghost predicate SameEids(v: View, w: View) {
    EidKeys(w) == EidKeys(v) && forall k | k in EidKeys(v) :: SiteAt(w, k) == SiteAt(v, k)
  }

  /** Outside the site's prefixes nothing is stored, dropped or written. */
  ghost predicate Untouched(v: View, w: View, es: set<Key>) {
    forall x | !Inside(es, x) :: (x in v <==> x in w) && (x in v ==> w[x] == v[x])
  }

  lemma RecordParts(v: View, r: Rec)
    requires Canonical(v)
    ensures AfterRecord(v, r).Keys == AfterGet(v, r.key).Keys && v.Keys <= AfterRecord(v, r).Keys
    ensures r.key in AfterGet(v, r.key) && AfterGet(v, r.key)[r.key] == Bumped(v, r.key)
    ensures r.key in AfterRecord(v, r) && AfterRecord(v, r)[r.key] == Mapped(Bumped(v, r.key), r)
    ensures forall x | x in AfterRecord(v, r) && x != r.key :: AfterRecord(v, r)[x] == if x in v then v[x] else STUB
    ensures forall x | x in AfterGet(v, r.key) && x != r.key :: AfterGet(v, r.key)[x] == if x in v then v[x] else STUB
  {
    hide Canonical, AfterGet, Bumped, Mapped;
    GetEntries(v, r.key);
  }

  /** Only what is locked counts for the canonical form. */
  lemma SameLocks(g: View, w: View)
    requires Canonical(g) && w.Keys == g.Keys
    requires forall x | x in w :: w[x].lock == g[x].lock && (w[x].lock == 0 ==> w[x] == g[x])
    ensures Canonical(w) && Locked(w) == Locked(g)
  {
    hide Meets;
    assert Locked(w) == Locked(g);
  }

  lemma RecordCanonical(v: View, r: Rec)
    requires Canonical(v)
    ensures Canonical(AfterRecord(v, r)) && Locked(AfterRecord(v, r)) == Locked(v) + {r.key}
  {
    hide Canonical, AfterGet, AfterRecord, Locked;
    RecordParts(v, r);
    LockedAfterGet(v, r.key);
    SameLocks(AfterGet(v, r.key), AfterRecord(v, r));
  }

  lemma RecordUntouched(v: View, es: set<Key>, r: Rec)
    requires Canonical(v) && es <= Locked(v) && Inside(es, r.key)
    ensures Untouched(v, AfterRecord(v, r), es)
  {
    hide Canonical, AfterGet, AfterRecord, Inside, Locked, Bumped, Mapped;
    RecordParts(v, r);
    forall x | x in AfterGet(v, r.key) && x !in v ensures Inside(es, x) {
      StubInside(v, es, r.key, x);
    }
  }

  lemma RecordKinds(v: View, r: Rec)
    requires Canonical(v) && Registering(r)
    ensures MappKeys(AfterRecord(v, r)) == MappKeys(v) + {r.key} && SameEids(v, AfterRecord(v, r))
    ensures WithInfo(AfterRecord(v, r)) == WithInfo(v) + {r.key}
  {
    hide Canonical, AfterGet, AfterRecord;
    RecordParts(v, r);
  }

  /** All records of a message: their prefixes become mappings, nothing else does, nothing outside
      the site's prefixes is touched, and the configured prefixes stay. */
  lemma {:induction false} RecordsEffect(v: View, es: set<Key>, rs: seq<Rec>)
    requires Canonical(v) && es <= Locked(v) && forall r | r in rs :: Inside(es, r.key) && Registering(r)
    ensures var w := AfterRecords(v, rs);
      && Canonical(w) && Untouched(v, w, es) && SameEids(v, w)
      && MappKeys(w) == MappKeys(v) + (set r | r in rs :: r.key)
      && WithInfo(w) == WithInfo(v) + (set r | r in rs :: r.key)
    decreases |rs|
  {
    hide Canonical, Inside, Locked, AfterRecord, MappKeys, WithInfo, EidKeys, Registering;
    if rs != [] {
      var u := AfterRecord(v, rs[0]);
      RecordCanonical(v, rs[0]);
      RecordUntouched(v, es, rs[0]);
      RecordKinds(v, rs[0]);
      RecordsEffect(u, es, rs[1..]);
      assert (set r | r in rs :: r.key) == {rs[0].key} + set r | r in rs[1..] :: r.key by {
        assert forall r :: r in rs <==> r == rs[0] || r in rs[1..];
      }
    }
  }

  /** Entries that no record names are those of before, or stubs. */
  lemma {:induction false} RecordsElsewhere(v: View, rs: seq<Rec>, x: Key)
    requires Canonical(v) && x in AfterRecords(v, rs) && forall r | r in rs :: r.key != x
    ensures AfterRecords(v, rs)[x] == if x in v then v[x] else STUB
    decreases |rs|
  {
    hide Canonical, AfterRecord;
    if rs != [] {
      RecordParts(v, rs[0]);
      RecordCanonical(v, rs[0]);
      RecordsKeepKeys(AfterRecord(v, rs[0]), rs[1..]);
      RecordsElsewhere(AfterRecord(v, rs[0]), rs[1..], x);
    }
  }

  /** A node keeps its roles and its site, whatever mappings come. */
  ghost predicate SameRoles(e: Entry, d: Entry) {
    && e.flags.Some? && d.flags.Some? && d.flags.value.site == e.flags.value.site
    && d.flags.value.range - {Mapp} == e.flags.value.range - {Mapp}
  }

  ghost predicate RolesAt(v: View, w: View, x: Key) {
    x in v && x in w && SameRoles(v[x], w[x])
  }

  lemma RecordKeepsRoles(v: View, r: Rec, x: Key)
    requires Canonical(v) && x in v && v[x].flags.Some? && Registering(r)
    ensures RolesAt(v, AfterRecord(v, r), x)
  {
    hide Canonical, AfterRecord, AfterGet;
    RecordParts(v, r);
  }

  lemma {:induction false} RecordsKeepRoles(v: View, u: View, rs: seq<Rec>, x: Key)
    requires Canonical(u) && RolesAt(v, u, x) && forall r | r in rs :: Registering(r)
    ensures RolesAt(v, AfterRecords(u, rs), x)
    decreases |rs|
  {
    hide Canonical, AfterRecord, Registering;
    if rs != [] {
      RecordKeepsRoles(u, rs[0], x);
      RecordCanonical(u, rs[0]);
      RecordsKeepRoles(v, AfterRecord(u, rs[0]), rs[1..], x);
    }
  }

  lemma {:induction false} RecordsKeepKeys(v: View, rs: seq<Rec>)
    requires Canonical(v)
    ensures v.Keys <= AfterRecords(v, rs).Keys
    decreases |rs|
  {
    hide Canonical, AfterRecord;
    if rs != [] {
      RecordParts(v, rs[0]);
      RecordCanonical(v, rs[0]);
      RecordsKeepKeys(AfterRecord(v, rs[0]), rs[1..]);
    }
  }

  /** A stored mapping is that of a record: its locators, and its flags but for range and site, which
      may add older ones. */
  ghost predicate Carries(v: View, r: Rec) {
    && r.key in v && v[r.key].info == Some(r.locs) && v[r.key].flags.Some?
    && v[r.key].flags.value.(range := r.flags.range, site := r.flags.site) == r.flags
    && r.flags.range <= v[r.key].flags.value.range
  }

  lemma OtherKeeps(v: View, x: Rec, r: Rec)
    requires Canonical(v) && Carries(v, r) && x.key != r.key
    ensures Carries(AfterRecord(v, x), r)
  {
    hide Canonical, AfterRecord, AfterGet, Bumped;
    RecordParts(v, x);
  }

  lemma {:induction false} OthersKeep(v: View, rs: seq<Rec>, r: Rec)
    requires Canonical(v) && Carries(v, r) && forall x | x in rs :: x.key != r.key
    ensures Carries(AfterRecords(v, rs), r)
    decreases |rs|
  {
    hide Canonical, AfterRecord, Carries;
    if rs != [] {
      OtherKeeps(v, rs[0], r);
      RecordCanonical(v, rs[0]);
      OthersKeep(AfterRecord(v, rs[0]), rs[1..], r);
    }
  }

  lemma RecordCarried(v: View, r: Rec)
    requires Canonical(v)
    ensures Carries(AfterRecord(v, r), r)
  {
    hide Canonical, AfterRecord, AfterGet, Bumped;
    RecordParts(v, r);
  }

  // ---------- an accepted Map-Register ----------

  ghost function AfterRegister(v: View, ks: seq<Key>, rs: seq<Rec>): View
    requires Cleanable(v, ks)
  {
    AfterRecords(AfterCleanAll(v, ks), rs)
  }

  ghost function SetOf(ks: seq<Key>): set<Key> {
    set k | k in ks
  }

  /** What cleaning a site means: `w` is what is left of `v`. */
  ghost predicate Cleaned(v: View, w: View, ks: seq<Key>) {
    && (forall x :: x in w <==> x in v && !BelowAny(ks, x))
    && (forall x | x in w :: w[x] == if x in ks then CleanEntry(v[x]) else v[x])
  }

  lemma CleanedIsCleaned(v: View, ks: seq<Key>)
    requires Canonical(v) && Configured(v, ks)
    ensures Cleanable(v, ks) && Canonical(AfterCleanAll(v, ks)) && Cleaned(v, AfterCleanAll(v, ks), ks)
  {
    hide Canonical, AfterCleanAll, Cleanable, Configured, BelowAny, CleanEntry;
    CleanAllEffect(v, ks);
  }

  /** Inside a site's prefixes, what does not lie strictly below one of them is one of them. */
  lemma InsideOrBelow(ks: seq<Key>, x: Key)
    ensures Inside(SetOf(ks), x) <==> x in ks || BelowAny(ks, x)
  {
    if Inside(SetOf(ks), x) {
      var e :| e in SetOf(ks) && e <= x;
      assert e in ks && (e == x || e < x);
    }
    if x in ks {
      assert x in SetOf(ks) && x <= x;
    }
    if BelowAny(ks, x) {
      var k :| k in ks && k < x;
      assert k in SetOf(ks) && k <= x;
    }
  }

  lemma NoEidBelow(v: View, ks: seq<Key>, x: Key)
    requires Configured(v, ks) && Disjoint(EidKeys(v)) && x in v && IsEid(v[x])
    ensures !BelowAny(ks, x)
  {
    assert x in EidKeys(v) && forall k | k in ks :: k in EidKeys(v);
  }

  /** A configured node without its mapping: no locators, all flags zero but the range, which is without
      `_MAPP`, and the site. */
  ghost predicate Emptied(e: Entry, d: Entry) {
    && d.info == None && e.flags.Some? && d.flags.Some?
    && d.flags.value.range == e.flags.value.range - {Mapp} && d.flags.value.site == e.flags.value.site
    && d.flags.value.act == d.flags.value.version == d.flags.value.ttl == d.flags.value.referral == 0
    && !d.flags.value.auth && !d.flags.value.proxy && !d.flags.value.incomplete
  }

  /** What is left inside a site's prefixes of what no record names: its own nodes, emptied, and
      branching points. */
  ghost predicate Bare(v: View, w: View, ks: seq<Key>, x: Key)
    requires x in w
  {
    if x in ks then x in v && Emptied(v[x], w[x]) else w[x] == STUB
  }

  /** After the old mappings have gone, no mapping is left inside the site's prefixes, and
      nothing outside has changed. */
  lemma CleanLeavesNone(v: View, w: View, ks: seq<Key>)
    requires Configured(v, ks) && Disjoint(EidKeys(v)) && Cleaned(v, w, ks)
    ensures Untouched(v, w, SetOf(ks))
    ensures forall x | x in w && Inside(SetOf(ks), x) :: !IsMapping(w[x]) && w[x].info == None
    ensures forall x | x in w && Inside(SetOf(ks), x) :: x in ks && x in v && Emptied(v[x], w[x])
  {
    hide Inside, BelowAny, SetOf;
    forall x ensures Inside(SetOf(ks), x) <==> x in ks || BelowAny(ks, x) {
      InsideOrBelow(ks, x);
    }
    forall k | k in ks ensures k in v && !IsMapping(CleanEntry(v[k])) && Emptied(v[k], CleanEntry(v[k])) {
      assert Eid in v[k].flags.value.range - {Mapp};
    }
  }

  lemma CleanKeepsEids(v: View, w: View, ks: seq<Key>)
    requires Configured(v, ks) && Disjoint(EidKeys(v)) && Cleaned(v, w, ks)
    ensures SameEids(v, w) && SetOf(ks) <= Locked(w)
  {
    hide BelowAny;
    forall x | x in v && IsEid(v[x]) ensures !BelowAny(ks, x) {
      NoEidBelow(v, ks, x);
    }
    forall x | x in w ensures IsEid(w[x]) == IsEid(v[x]) && SiteAt(w, x) == SiteAt(v, x) && w[x].lock == v[x].lock {
    }
  }

  /** Inside the prefixes the mappings, and the entries with information, are those of the records; the
      rest is bare. */
  ghost predicate Remade(v: View, w: View, ks: seq<Key>, rs: seq<Rec>) {
    && (forall x | Inside(SetOf(ks), x) :: (x in w && IsMapping(w[x])) <==> Named(rs, x))
    && (forall x | Inside(SetOf(ks), x) :: (x in w && w[x].info != None) <==> Named(rs, x))
    && (forall x | Inside(SetOf(ks), x) && x in w && !Named(rs, x) :: Bare(v, w, ks, x))
    && (forall x | x in ks :: RolesAt(v, w, x))
  }

  ghost predicate Named(rs: seq<Rec>, x: Key) {
    exists r :: r in rs && r.key == x
  }

  /** An accepted Map-Register leaves exactly the message's prefixes as mappings inside the site's
      prefixes, and everything outside as it was; the table stays canonical, and every configured
      prefix keeps its site. */
  lemma RegisterEffect(v: View, ks: seq<Key>, rs: seq<Rec>)
    requires Canonical(v) && Configured(v, ks) && Disjoint(EidKeys(v))
    requires forall r | r in rs :: Inside(SetOf(ks), r.key) && Registering(r)
    ensures Cleanable(v, ks)
    ensures Canonical(AfterRegister(v, ks, rs)) && SameEids(v, AfterRegister(v, ks, rs))
    ensures Untouched(v, AfterRegister(v, ks, rs), SetOf(ks))
    ensures Remade(v, AfterRegister(v, ks, rs), ks, rs)
  {
    hide Canonical, AfterCleanAll, AfterRecords, Configured, Inside, EidKeys, IsMapping, Cleaned, Disjoint,
      SetOf, Locked, Registering, MappKeys, WithInfo, Emptied, RolesAt;
    CleanedIsCleaned(v, ks);
    var u := AfterCleanAll(v, ks);
    CleanLeavesNone(v, u, ks);
    CleanKeepsEids(v, u, ks);
    RecordsEffect(u, SetOf(ks), rs);
    MappFacts(u, AfterRecords(u, rs), rs, SetOf(ks));
    forall x | x in ks ensures RolesAt(v, AfterRecords(u, rs), x) {
      OwnRoles(v, u, ks, x);
      RecordsKeepRoles(v, u, rs, x);
    }
    forall x | Inside(SetOf(ks), x) && x in AfterRecords(u, rs) && !Named(rs, x)
      ensures Bare(v, AfterRecords(u, rs), ks, x)
    {
      RecordsElsewhere(u, rs, x);
      RecordsKeepKeys(u, rs);
      OwnRemain(v, u, ks, x);
    }
  }

  lemma OwnRoles(v: View, w: View, ks: seq<Key>, x: Key)
    requires Configured(v, ks) && Disjoint(EidKeys(v)) && Cleaned(v, w, ks) && x in ks
    ensures RolesAt(v, w, x)
  {
    hide BelowAny;
    NoEidBelow(v, ks, x);
    assert Eid in v[x].flags.value.range - {Mapp};
  }

  /** The nodes of the site itself are not cut off. */
  lemma OwnRemain(v: View, w: View, ks: seq<Key>, x: Key)
    requires Configured(v, ks) && Disjoint(EidKeys(v)) && Cleaned(v, w, ks)
    ensures x in ks ==> x in w
  {
    hide BelowAny;
    if x in ks {
      NoEidBelow(v, ks, x);
    }
  }

  lemma MappFacts(u: View, w: View, rs: seq<Rec>, es: set<Key>)
    requires MappKeys(w) == MappKeys(u) + (set r | r in rs :: r.key)
    requires WithInfo(w) == WithInfo(u) + (set r | r in rs :: r.key)
    requires forall x | x in u && Inside(es, x) :: !IsMapping(u[x]) && u[x].info == None
    ensures forall x | Inside(es, x) :: (x in w && IsMapping(w[x])) <==> Named(rs, x)
    ensures forall x | Inside(es, x) :: (x in w && w[x].info != None) <==> Named(rs, x)
  {
    hide Inside;
    forall x | Inside(es, x) ensures (x in w && w[x].info != None) <==> Named(rs, x) {
      assert x !in WithInfo(u);
      assert x in WithInfo(w) <==> x in w && w[x].info != None;
      assert x in WithInfo(w) <==> x in set r | r in rs :: r.key;
    }
    forall x | Inside(es, x) ensures (x in w && IsMapping(w[x])) <==> Named(rs, x) {
      assert x !in MappKeys(u);
      assert x in MappKeys(w) <==> x in w && IsMapping(w[x]);
      assert x in MappKeys(w) <==> x in set r | r in rs :: r.key;
    }
  }

  // ---------- locks only ----------

  /** The same table but for more locks: what validation leaves behind. */
  ghost predicate MoreLocks(v: View, w: View) {
    w.Keys == v.Keys && forall k | k in v :: w[k].lock >= v[k].lock && w[k] == v[k].(lock := w[k].lock)
  }

  lemma MoreLocksTransitive(u: View, v: View, w: View)
    requires MoreLocks(u, v) && MoreLocks(v, w)
    ensures MoreLocks(u, w)
  {
  }

  lemma MoreLocksSameEids(v: View, w: View)
    requires MoreLocks(v, w)
    ensures SameEids(v, w) && MappKeys(w) == MappKeys(v) && WithInfo(w) == WithInfo(v)
  {
  }

  lemma BumpIsMore(v: View, w: View, k: Key)
    requires k in v && w == v[k := Bumped(v, k)]
    ensures MoreLocks(v, w)
  {
  }

  lemma SiteStays(v: View, w: View, q: Key, site: Option<nat>)
    requires SameEids(v, w) && SiteOf(v, q, site)
    ensures SiteOf(w, q, site)
  {
    var r :| IsLongest(EidKeys(v) - {[]}, q, r) && site == if r == None then None else SiteAt(v, r.value);
    assert IsLongest(EidKeys(w) - {[]}, q, r);
  }

  lemma SiteUnique(v: View, q: Key, a: Option<nat>, b: Option<nat>)
    requires SiteOf(v, q, a) && SiteOf(v, q, b)
    ensures a == b
  {
    hide IsLongest;
    var r :| IsLongest(EidKeys(v) - {[]}, q, r) && a == if r == None then None else SiteAt(v, r.value);
    var s :| IsLongest(EidKeys(v) - {[]}, q, s) && b == if s == None then None else SiteAt(v, s.value);
    LongestUnique(EidKeys(v) - {[]}, q, r, s);
  }

  /** The prefixes of a site are the configured prefixes that point to it. */
  ghost predicate SiteKeys(v: View, ks: seq<Key>, site: nat) {
    forall k | k in EidKeys(v) :: SiteAt(v, k) == Some(site) <==> k in ks
  }

  /** What belongs to a site lies inside its prefixes. */
  lemma SiteIsInside(v: View, ks: seq<Key>, site: nat, q: Key)
    requires SiteKeys(v, ks, site) && SiteOf(v, q, Some(site))
    ensures Inside(SetOf(ks), q)
  {
    var r :| IsLongest(EidKeys(v) - {[]}, q, r) && Some(site) == if r == None then None else SiteAt(v, r.value);
    assert r.value in SetOf(ks) && r.value <= q;
  }

  // ---------- the locators of a record ----------

  /** A locator of a record: a new one goes to the end of the list, a known one replaces the old
      entry if its priority is lower. */
  function AddLoc(l: Locs, e: MapEntry): Locs {
    if l == [] then [e]
    else if l[0].rloc == e.rloc then (if l[0].priority > e.priority then [e] + l[1..] else l)
    else [l[0]] + AddLoc(l[1..], e)
  }

  function Collect(l: Locs, es: Locs): Locs
    decreases |es|
  {
    if es == [] then l else Collect(AddLoc(l, es[0]), es[1..])
  }

  ghost predicate DistinctLocs(l: Locs) {
    forall i, j | 0 <= i < j < |l| :: l[i].rloc != l[j].rloc
  }

  /** A list holds a locator with a priority at least as good. */
  ghost predicate Served(l: Locs, y: MapEntry) {
    exists x :: x in l && x.rloc == y.rloc && x.priority <= y.priority
  }

  /** Of the locators with its address the one at j has the least priority, and comes first of those. */
  ghost predicate Wins(es: Locs, j: nat)
    requires j < |es|
  {
    forall k | 0 <= k < |es| && es[k].rloc == es[j].rloc ::
      if k < j then es[k].priority > es[j].priority else es[k].priority >= es[j].priority
  }

  ghost predicate Winner(es: Locs, x: MapEntry) {
    exists j :: 0 <= j < |es| && es[j] == x && Wins(es, j)
  }

  /** Where an address turns up first; the end if it does not. */
  function FirstAt(es: Locs, a: Rloc): (i: nat)
    ensures i <= |es| && (i < |es| ==> es[i].rloc == a) && forall k | 0 <= k < i :: es[k].rloc != a
  {
    if es == [] || es[0].rloc == a then 0 else 1 + FirstAt(es[1..], a)
  }

  ghost predicate AllWin(l: Locs, es: Locs) {
    forall i | 0 <= i < |l| :: Winner(es, l[i])
  }

  ghost predicate InTurn(l: Locs, es: Locs) {
    forall i, j | 0 <= i < j < |l| :: FirstAt(es, l[i].rloc) < FirstAt(es, l[j].rloc)
  }

  ghost predicate Covers(l: Locs, es: Locs) {
    forall k | 0 <= k < |es| :: FirstAt(l, es[k].rloc) < |l|
  }

  /** A list with one locator for every address of a record, the winner, in the order in which the
      addresses turned up. */
  ghost predicate Condensed(l: Locs, es: Locs) {
    AllWin(l, es) && InTurn(l, es) && Covers(l, es)
  }

  lemma {:induction false} CollectLast(l: Locs, es: Locs, e: MapEntry)
    ensures Collect(l, es + [e]) == AddLoc(Collect(l, es), e)
    decreases |es|
  {
    hide AddLoc;
    if es == [] {
      assert es + [e] == [e] && [e][1..] == [];
    } else {
      assert (es + [e])[1..] == es[1..] + [e];
      CollectLast(AddLoc(l, es[0]), es[1..], e);
    }
  }

  lemma FirstAtMore(es: Locs, e: MapEntry, a: Rloc)
    ensures FirstAt(es + [e], a) == if FirstAt(es, a) < |es| || e.rloc == a then FirstAt(es, a) else |es| + 1
  {
    var i, j := FirstAt(es, a), FirstAt(es + [e], a);
    assert forall k | 0 <= k < |es| :: (es + [e])[k] == es[k];
    assert (es + [e])[|es|] == e;
  }

  /** A winner among more locators: it still wins, or the last one does. */
  lemma WinnerMore(es: Locs, e: MapEntry, x: MapEntry)
    requires Winner(es, x) && (x.rloc == e.rloc ==> x.priority <= e.priority)
    ensures Winner(es + [e], x)
  {
    var j :| 0 <= j < |es| && es[j] == x && Wins(es, j);
    var t := es + [e];
    forall k | 0 <= k < |t| && t[k].rloc == t[j].rloc
      ensures if k < j then t[k].priority > t[j].priority else t[k].priority >= t[j].priority
    {
      assert k < |es| ==> t[k] == es[k];
    }
    assert Wins(t, j);
  }

  lemma LastWins(es: Locs, e: MapEntry)
    requires forall k | 0 <= k < |es| && es[k].rloc == e.rloc :: es[k].priority > e.priority
    ensures Winner(es + [e], e)
  {
    var t := es + [e];
    assert t[|es|] == e && Wins(t, |es|);
  }

  lemma WinnerLeast(es: Locs, x: MapEntry)
    requires Winner(es, x)
    ensures forall k | 0 <= k < |es| && es[k].rloc == x.rloc :: es[k].priority >= x.priority
  {
  }

  /** Where the search ends decides. */
  lemma {:induction false} AddLocAt(l: Locs, e: MapEntry, i: nat)
    requires i <= |l| && (forall j | 0 <= j < i :: l[j].rloc != e.rloc) && (i < |l| ==> l[i].rloc == e.rloc)
    ensures AddLoc(l, e) == if i == |l| then l + [e] else if l[i].priority > e.priority then l[i := e] else l
    decreases |l|
  {
    if i > 0 {
      AddLocAt(l[1..], e, i - 1);
      assert l == [l[0]] + l[1..];
    }
  }

  lemma WinnerFound(es: Locs, x: MapEntry)
    requires Winner(es, x)
    ensures FirstAt(es, x.rloc) < |es|
  {
  }

  /** An address is in the list once. */
  lemma Once(l: Locs, es: Locs, i: nat, j: nat)
    requires InTurn(l, es) && i < |l| && j < |l| && l[i].rloc == l[j].rloc
    ensures i == j
  {
  }

  lemma NewAddress(l: Locs, es: Locs, e: MapEntry)
    requires Condensed(l, es) && FirstAt(l, e.rloc) == |l|
    ensures Condensed(l + [e], es + [e])
  {
    hide FirstAt, Winner;
    var m, t := l + [e], es + [e];
    forall k | 0 <= k < |es| ensures es[k].rloc != e.rloc {
    }
    forall j | 0 <= j < |m| ensures Winner(t, m[j]) {
      if j < |l| {
        assert m[j] == l[j] && l[j].rloc != e.rloc;
        WinnerMore(es, e, l[j]);
      } else {
        LastWins(es, e);
      }
    }
    FirstAtMore(es, e, e.rloc);
    forall a, b | 0 <= a < b < |m| ensures FirstAt(t, m[a].rloc) < FirstAt(t, m[b].rloc) {
      WinnerFound(es, l[a]);
      FirstAtMore(es, e, l[a].rloc);
      if b < |l| {
        WinnerFound(es, l[b]);
        FirstAtMore(es, e, l[b].rloc);
      }
    }
    forall k | 0 <= k < |t| ensures FirstAt(m, t[k].rloc) < |m| {
      FirstAtMore(l, e, t[k].rloc);
    }
  }

  lemma KnownAddress(l: Locs, es: Locs, e: MapEntry, i: nat, x: MapEntry)
    requires Condensed(l, es) && i < |l| && l[i].rloc == e.rloc
    requires x == if l[i].priority > e.priority then e else l[i]
    ensures Condensed(l[i := x], es + [e])
  {
    hide FirstAt, Winner;
    var m, t := l[i := x], es + [e];
    forall j | 0 <= j < |m| ensures Winner(t, m[j]) {
      KnownWinner(l, es, e, i, x, j);
    }
    forall j | 0 <= j < |l| ensures FirstAt(t, m[j].rloc) == FirstAt(es, l[j].rloc) && FirstAt(m, m[j].rloc) < |m| {
      WinnerFound(es, l[j]);
      FirstAtMore(es, e, l[j].rloc);
    }
    forall k | 0 <= k < |t| ensures FirstAt(m, t[k].rloc) < |m| {
      var n := if k < |es| then FirstAt(l, t[k].rloc) else i;
      assert m[n].rloc == l[n].rloc == t[k].rloc;
    }
  }

  lemma KnownWinner(l: Locs, es: Locs, e: MapEntry, i: nat, x: MapEntry, j: nat)
    requires Condensed(l, es) && i < |l| && l[i].rloc == e.rloc && j < |l|
    requires x == if l[i].priority > e.priority then e else l[i]
    ensures Winner(es + [e], l[i := x][j])
  {
    hide FirstAt, Winner, InTurn, Covers;
    if j == i && l[i].priority > e.priority {
      WinnerLeast(es, l[i]);
      LastWins(es, e);
    } else {
      if l[j].rloc == e.rloc {
        Once(l, es, i, j);
      }
      WinnerMore(es, e, l[j]);
    }
  }

  /** What is in the list after one locator more. */
  lemma CondensedStep(l: Locs, es: Locs, e: MapEntry)
    requires Condensed(l, es)
    ensures Condensed(AddLoc(l, e), es + [e])
  {
    hide AddLoc, Condensed;
    var i := FirstAt(l, e.rloc);
    AddLocAt(l, e, i);
    if i == |l| {
      NewAddress(l, es, e);
    } else {
      KnownAddress(l, es, e, i, if l[i].priority > e.priority then e else l[i]);
      assert l[i := l[i]] == l;
    }
  }

  /** The list of a mapping, exactly. */
  lemma {:induction false} CollectCondenses(es: Locs)
    ensures Condensed(Collect([], es), es)
    decreases |es|
  {
    hide AddLoc, Condensed;
    if es == [] {
      NothingCondensed();
    } else {
      var n := |es| - 1;
      assert es == es[..n] + [es[n]];
      CollectCondenses(es[..n]);
      CollectLast([], es[..n], es[n]);
      CondensedStep(Collect([], es[..n]), es[..n], es[n]);
    }
  }

  lemma NothingCondensed()
    ensures Condensed([], [])
  {
  }

  lemma ServedBy(l: Locs, x: MapEntry, y: MapEntry)
    requires x in l && x.rloc == y.rloc && x.priority <= y.priority
    ensures Served(l, y)
  {
  }

  lemma {:induction false} AddLocServes(l: Locs, e: MapEntry, y: MapEntry)
    requires y in l || y == e
    ensures Served(AddLoc(l, e), y)
  {
    hide Served;
    var t := AddLoc(l, e);
    if l == [] {
      ServedBy(t, e, y);
    } else if l[0].rloc == e.rloc {
      if y in l[1..] {
        ServedBy(t, y, y);
      } else {
        ServedBy(t, t[0], y);
      }
    } else if y == l[0] {
      ServedBy(t, l[0], y);
    } else {
      AddLocServes(l[1..], e, y);
      ServedTail(l[0], AddLoc(l[1..], e), y);
    }
  }

  lemma ServedTail(a: MapEntry, l: Locs, y: MapEntry)
    requires Served(l, y)
    ensures Served([a] + l, y)
  {
    var x :| x in l && x.rloc == y.rloc && x.priority <= y.priority;
    assert x in [a] + l;
  }

  lemma ServedThrough(l: Locs, t: Locs, y: MapEntry)
    requires Served(l, y) && forall x | x in l :: Served(t, x)
    ensures Served(t, y)
  {
    var x :| x in l && x.rloc == y.rloc && x.priority <= y.priority;
    var z :| z in t && z.rloc == x.rloc && z.priority <= x.priority;
  }

  lemma {:induction false} AddLocDistinct(l: Locs, e: MapEntry)
    requires DistinctLocs(l)
    ensures DistinctLocs(AddLoc(l, e)) && forall x | x in AddLoc(l, e) :: x == e || x in l
  {
    if l != [] && l[0].rloc != e.rloc {
      AddLocDistinct(l[1..], e);
      assert forall x | x in l[1..] :: x.rloc != l[0].rloc;
    }
  }

  /** The list of a mapping: every locator of the record once, with the least priority it came with. */
  lemma {:induction false} CollectLeast(l: Locs, es: Locs)
    requires DistinctLocs(l)
    ensures DistinctLocs(Collect(l, es))
    ensures forall x | x in Collect(l, es) :: x in l || x in es
    ensures forall y | y in l || y in es :: Served(Collect(l, es), y)
    decreases |es|
  {
    hide AddLoc, DistinctLocs, Served;
    if es == [] {
      forall y | y in l ensures Served(l, y) {
        ServedBy(l, y, y);
      }
    } else {
      var m := AddLoc(l, es[0]);
      AddLocDistinct(l, es[0]);
      CollectLeast(m, es[1..]);
      forall y | y in l || y in es ensures Served(Collect(l, es), y) {
        if y !in es[1..] {
          AddLocServes(l, es[0], y);
          ServedThrough(m, Collect(l, es), y);
        }
      }
    }
  }
}
