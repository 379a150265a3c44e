/** What a table means to its users, without pointers: for every stored prefix its entry.
    The stored prefixes are exactly the meets of the locked ones, so a table is a function of
    its locked entries; getting and releasing a prefix are defined on that value. */
module Views {
  import opened Types
  import opened Bits

  /** What a node holds for its users: the reference count, the locators, the mapping flags. */
  datatype Entry = Entry(lock: nat, info: Option<Locs>, flags: Option<Flags>)

  type View = map<Key, Entry>

  ghost function Locked(v: View): (r: set<Key>) {
    set k | k in v && v[k].lock > 0
  }

  /** The stubs are exactly the branching points of the locked prefixes, and hold nothing. */
  ghost predicate Canonical(v: View) {
    v.Keys == Meets(Locked(v)) && forall k | k in v && v[k].lock == 0 :: v[k].info == None
  }

  const STUB := Entry(0, None, None)

  // ---------- meets ----------

  /** The longest agreement of k with a member of s. */
  lemma {:induction false} LongestMeet(s: set<Key>, k: Key) returns (a: Key)
    requires s != {}
    ensures a in s && forall b | b in s :: |Lcp(k, b)| <= |Lcp(k, a)|
  {
    a :| a in s;
    if s != {a} {
      var a' := LongestMeet(s - {a}, k);
      if |Lcp(k, a')| > |Lcp(k, a)| {
        a := a';
      }
    }
  }

  /** A shorter agreement with k is already a meet of the two others. */
  lemma MeetThrough(k: Key, a: Key, b: Key)
    requires |Lcp(k, b)| < |Lcp(k, a)|
    ensures Lcp(k, b) == Lcp(a, b)
  {
    var c := Lcp(k, b);
    assert c <= a by { assert c <= k && Lcp(k, a) <= k; }
    assert |c| < |b| ==> a[|c|] == k[|c|] by { assert Lcp(k, a)[|c|] == k[|c|]; }
    LcpUnique(c, a, b);
  }

  /** One more member adds itself and at most one branching point. */
  lemma MeetsGrow(s: set<Key>, k: Key, a: Key)
    requires a in s && forall b | b in s :: |Lcp(k, b)| <= |Lcp(k, a)|
    ensures Meets(s + {k}) == Meets(s) + {k, Lcp(k, a)}
  {
    hide Lcp;
    LcpUnique(k, k, k);
    forall x | x in Meets(s + {k}) ensures x in Meets(s) + {k, Lcp(k, a)} {
      var p, q :| p in s + {k} && q in s + {k} && x == Lcp(p, q);
      LcpSymmetric(p, q);
      MeetWith(s, k, a, if p == k then q else p);
    }
    assert Lcp(k, k) in Meets(s + {k}) && Lcp(k, a) in Meets(s + {k});
  }

  lemma MeetWith(s: set<Key>, k: Key, a: Key, b: Key)
    requires a in s && b in s + {k} && forall c | c in s :: |Lcp(k, c)| <= |Lcp(k, a)|
    ensures Lcp(k, b) == k || Lcp(k, b) == Lcp(k, a) || (b in s && Lcp(k, b) == Lcp(a, b))
  {
    if b == k {
      LcpUnique(k, k, k);
    } else if |Lcp(k, b)| < |Lcp(k, a)| {
      MeetThrough(k, a, b);
    } else {
      assert Lcp(k, b) == Lcp(k, a) by { assert Lcp(k, b) <= k && Lcp(k, a) <= k; }
    }
  }

  /** n prefixes have at most n - 1 branching points. */
  lemma {:induction false} MeetsBound(s: set<Key>)
    requires s != {}
    ensures |Meets(s)| <= 2 * |s| - 1
  {
    var k :| k in s;
    var r := s - {k};
    assert s == r + {k};
    if r == {} {
      LcpUnique(k, k, k);
      assert Meets(s) == {k};
    } else {
      MeetsBound(r);
      var a := LongestMeet(r, k);
      MeetsGrow(r, k, a);
      assert |Meets(r) + {k, Lcp(k, a)}| <= |Meets(r)| + 2;
    }
  }

  /** Meets of meets are meets. */
  lemma MeetsClosed(s: set<Key>, x: Key, y: Key)
    requires x in Meets(s) && y in Meets(s)
    ensures Lcp(x, y) in Meets(s)
  {
    var a, b :| a in s && b in s && x == Lcp(a, b);
    var c, d :| c in s && d in s && y == Lcp(c, d);
    var m := Lcp(x, y);
    if m == x || m == y {
    } else {
      assert x[|m|] != y[|m|];
      assert m <= a && m <= c by { assert x <= a && y <= c; }
      LcpUnique(m, a, c);
    }
  }

  // ---------- getting and releasing a prefix ----------

  ghost function Bumped(v: View, k: Key): Entry {
    if k in v then v[k].(lock := v[k].lock + 1) else Entry(1, None, None)
  }

  /** `db_node_get`: the prefix is locked once more, or stored; at most one branching point
      appears with it; every other entry is as it was. */
  ghost function AfterGet(v: View, k: Key): View {
    map x | x in Meets(Locked(v) + {k}) :: if x == k then Bumped(v, k) else if x in v then v[x] else STUB
  }

  /** `db_unlock_node`: the count goes down; with the last lock the prefix goes, unless it is
      a branching point, and so do the branching points only it made. */
  ghost function AfterUnlock(v: View, k: Key): View
    requires k in v && v[k].lock > 0
  {
    var w := v[k := v[k].(lock := v[k].lock - 1)];
    map x | x in Meets(Locked(w)) && x in w :: w[x]
  }

  lemma MeetsMonotone(s: set<Key>, t: set<Key>)
    requires s <= t
    ensures Meets(s) <= Meets(t)
  {
  }

  lemma LockedAfterGet(v: View, k: Key)
    requires Canonical(v)
    ensures Locked(AfterGet(v, k)) == Locked(v) + {k} && Canonical(AfterGet(v, k))
    ensures v.Keys <= AfterGet(v, k).Keys
  {
    hide Meets, Lcp;
    MeetsContains(Locked(v) + {k});
    MeetsMonotone(Locked(v), Locked(v) + {k});
    assert Locked(AfterGet(v, k)) == Locked(v) + {k};
  }

  /** How a get can look in a table: the prefix is locked once more or entered, and at most one
      stub comes with it. If the result is canonical again, it is `AfterGet`. */
  ghost predicate GotWith(v: View, w: View, k: Key, stub: Option<Key>) {
    if stub == None then w == v[k := Bumped(v, k)]
    else stub.value !in v && stub.value != k && w == v[stub.value := STUB][k := Bumped(v, k)]
  }

  lemma GetByCanonical(v: View, w: View, k: Key, stub: Option<Key>)
    requires Canonical(v) && Canonical(w) && GotWith(v, w, k, stub)
    ensures w == AfterGet(v, k)
  {
    hide Meets, Lcp;
    assert Locked(w) == Locked(v) + {k};
  }

  lemma MeetParts(s: set<Key>, x: Key) returns (p: Key, q: Key)
    requires x in Meets(s)
    ensures p in s && q in s && x == Lcp(p, q)
  {
    hide Lcp;
    p, q :| p in s && q in s && x == Lcp(p, q);
  }

  /** A meet adds no meets. */
  lemma MeetOfMeets(s: set<Key>, k: Key, x: Key)
    requires k in Meets(s) && x in Meets(s + {k})
    ensures x in Meets(s)
  {
    hide Lcp, Meets;
    MeetsContains(s);
    var p, q := MeetParts(s + {k}, x);
    MeetsClosed(s, p, q);
  }

  /** The lock that a lookup takes on a stored prefix, a stub included, is a get of that prefix: it keeps
      the canonical form, and stores nothing. */
  lemma LockIsGet(v: View, k: Key)
    requires Canonical(v) && k in v
    ensures Canonical(v[k := Bumped(v, k)]) && AfterGet(v, k) == v[k := Bumped(v, k)]
    ensures Apply(v, Get(k)) == v[k := Bumped(v, k)]
  {
    hide Meets;
    var s, w := Locked(v), v[k := Bumped(v, k)];
    assert Locked(w) == s + {k};
    MeetsMonotone(s, s + {k});
    MeetsContains(s);
    forall x | x in Meets(s + {k}) ensures x in Meets(s) {
      MeetOfMeets(s, k, x);
    }
    assert GotWith(v, w, k, None);
    GetByCanonical(v, w, k, None);
  }

  lemma LockedAfterUnlock(v: View, k: Key)
    requires Canonical(v) && k in v && v[k].lock > 0
    requires v[k].lock == 1 ==> v[k].info == None
    ensures Locked(AfterUnlock(v, k)) == (if v[k].lock == 1 then Locked(v) - {k} else Locked(v))
    ensures Canonical(AfterUnlock(v, k)) && AfterUnlock(v, k).Keys <= v.Keys
  {
    hide Meets, Lcp;
    var w := v[k := v[k].(lock := v[k].lock - 1)];
    assert Locked(w) == if v[k].lock == 1 then Locked(v) - {k} else Locked(v);
    MeetsContains(Locked(w));
    MeetsMonotone(Locked(w), Locked(v));
    var r := AfterUnlock(v, k);
    assert r.Keys == Meets(Locked(w));
    assert Locked(r) == Locked(w);
  }

  /** A get is undone by a release: the contents are what they were, branching points included. */
  lemma GetUndone(v: View, k: Key)
    requires Canonical(v)
    ensures k in AfterGet(v, k) && AfterGet(v, k)[k].lock > 0 && AfterUnlock(AfterGet(v, k), k) == v
  {
    hide Meets, Lcp;
    LockedAfterGet(v, k);
    MeetsContains(Locked(v) + {k});
    var w := AfterGet(v, k);
    var u := w[k := w[k].(lock := w[k].lock - 1)];
    assert w[k] == Bumped(v, k);
    assert Locked(u) == Locked(v);
    assert AfterUnlock(w, k).Keys == Meets(Locked(v));
  }

  /** A release writes to no other entry. */
  lemma UnlockEntries(v: View, k: Key, x: Key)
    requires k in v && v[k].lock > 0 && x in AfterUnlock(v, k)
    ensures x in v && AfterUnlock(v, k)[x] == if x == k then v[k].(lock := v[k].lock - 1) else v[x]
  {
    hide Meets, Lcp;
  }

  // ---------- whole runs ----------

  /** The calls of a table's users. */
  datatype Op =
    | Get(k: Key)
    | Unlock(k: Key)
    | SetInfo(k: Key, info: Option<Locs>)
    | SetFlags(k: Key, flags: Option<Flags>)

  /** What the source asserts: only a locked node is released or written, and the last lock on
      a node goes only after its information. */
  ghost predicate Allowed(v: View, op: Op) {
    match op
    case Get(k) => true
    case Unlock(k) => k in v && v[k].lock > 0 && (v[k].lock == 1 ==> v[k].info == None)
    case SetInfo(k, _) => k in v && v[k].lock > 0
    case SetFlags(k, _) => k in v && v[k].lock > 0
  }

  ghost function Apply(v: View, op: Op): View
    requires Allowed(v, op)
  {
    match op
    case Get(k) => AfterGet(v, k)
    case Unlock(k) => AfterUnlock(v, k)
    case SetInfo(k, i) => v[k := v[k].(info := i)]
    case SetFlags(k, f) => v[k := v[k].(flags := f)]
  }

  ghost predicate AllowedRun(v: View, ops: seq<Op>)
    decreases |ops|
  {
    ops == [] || (Allowed(v, ops[0]) && AllowedRun(Apply(v, ops[0]), ops[1..]))
  }

  ghost function Run(v: View, ops: seq<Op>): View
    requires AllowedRun(v, ops)
    decreases |ops|
  {
    if ops == [] then v else Run(Apply(v, ops[0]), ops[1..])
  }

  lemma ApplyKeepsCanonical(v: View, op: Op)
    requires Canonical(v) && Allowed(v, op)
    ensures Canonical(Apply(v, op))
  {
    hide Meets, AfterGet, AfterUnlock;
    match op {
      case Get(k) => LockedAfterGet(v, k);
      case Unlock(k) => LockedAfterUnlock(v, k);
      case SetInfo(k, i) => assert Locked(Apply(v, op)) == Locked(v);
      case SetFlags(k, f) => assert Locked(Apply(v, op)) == Locked(v);
    }
  }

  /** At most one branching point fewer than locked prefixes; nothing stored when nothing is locked. */
  ghost predicate WithinBound(v: View) {
    |v| <= if Locked(v) == {} then 0 else 2 * |Locked(v)| - 1
  }

  lemma CanonicalBound(v: View)
    requires Canonical(v)
    ensures WithinBound(v)
  {
    assert |v| == |v.Keys|;
    if Locked(v) != {} {
      MeetsBound(Locked(v));
    } else {
      assert Meets(Locked(v)) == {};
    }
  }

  /** Over every run of gets, releases and writes on an empty table the stored prefixes are the
      meets of the locked ones, at most 2 * locked - 1 of them, and none when nothing is locked. */
  lemma {:induction false} RunBound(v: View, ops: seq<Op>)
    requires Canonical(v) && AllowedRun(v, ops)
    ensures Canonical(Run(v, ops)) && WithinBound(Run(v, ops))
    decreases |ops|
  {
    hide Canonical, WithinBound, Apply, Allowed;
    if ops == [] {
      CanonicalBound(v);
    } else {
      ApplyKeepsCanonical(v, ops[0]);
      RunBound(Apply(v, ops[0]), ops[1..]);
    }
  }
}
