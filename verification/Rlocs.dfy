/** The locator chain of a mapping in the kernel (core.patch): insertion in order, the locator
    status bits, and the choice of a destination. */
module Rlocs {
  import opened Types

  datatype Af = Inet | Inet6

  /** A socket address with port 0: family, and address bytes in network order. */
  datatype AddrRecord = Addr(af: Af, bytes: seq<bv8>)

  type Address = a: AddrRecord | |a.bytes| == (if a.af == Inet then 4 else 16)
    witness Addr(Inet, [0, 0, 0, 0])

  /** `struct locator`: what the order, the status bits and the choice look at. */
  datatype Locator = Locator(addr: Address, priority: nat, up: bool, txNonce: bool)

  const MAX_RLOC_PRI := 255

  // ---------- the order ----------

  /** Byte strings in lexicographic order. */
  predicate BytesBefore(a: seq<bv8>, b: seq<bv8>) {
    |a| > 0 && |b| > 0 && (a[0] < b[0] || (a[0] == b[0] && BytesBefore(a[1..], b[1..])))
  }

  /** The order of the address: every IPv4 address comes before every IPv6 one. */
  predicate AddrBefore(a: Address, b: Address) {
    if a.af != b.af then a.af == Inet else BytesBefore(a.bytes, b.bytes)
  }

  /** Priority first, then address. */
  predicate Precedes(a: Locator, b: Locator) {
    a.priority < b.priority || (a.priority == b.priority && AddrBefore(a.addr, b.addr))
  }

  lemma {:induction false} BytesTotal(a: seq<bv8>, b: seq<bv8>)
    requires |a| == |b|
    ensures a == b || BytesBefore(a, b) || BytesBefore(b, a)
    ensures !(BytesBefore(a, b) && BytesBefore(b, a)) && !BytesBefore(a, a)
  {
    if |a| > 0 {
      BytesTotal(a[1..], b[1..]);
      BytesTotal(a[1..], a[1..]);
      assert a == [a[0]] + a[1..] && b == [b[0]] + b[1..];
    }
  }

  lemma {:induction false} BytesTransitive(a: seq<bv8>, b: seq<bv8>, c: seq<bv8>)
    requires BytesBefore(a, b) && BytesBefore(b, c)
    ensures BytesBefore(a, c)
  {
    if a[0] == b[0] == c[0] {
      BytesTransitive(a[1..], b[1..], c[1..]);
    }
  }

  /** A strict order, total on different addresses. */
  lemma OrderIsStrict(a: Locator, b: Locator)
    ensures !(Precedes(a, b) && Precedes(b, a)) && !Precedes(a, a)
    ensures a.addr != b.addr ==> Precedes(a, b) || Precedes(b, a)
  {
    if a.addr.af == b.addr.af {
      BytesTotal(a.addr.bytes, b.addr.bytes);
    }
    BytesTotal(a.addr.bytes, a.addr.bytes);
    hide BytesBefore;
  }

  lemma OrderIsTransitive(a: Locator, b: Locator, c: Locator)
    requires Precedes(a, b) && Precedes(b, c)
    ensures Precedes(a, c)
  {
    if a.addr.af == b.addr.af == c.addr.af && a.priority == b.priority == c.priority {
      BytesTransitive(a.addr.bytes, b.addr.bytes, c.addr.bytes);
    }
    hide BytesBefore;
  }

  /** The loop of `order_addr`, which two different strings end before their ends. */
  method OrderBytes(a: seq<bv8>, b: seq<bv8>) returns (smaller: bool)
    requires |a| == |b| && a != b
    ensures smaller <==> BytesBefore(a, b)
  {
    var i := 0;
    assert a[0..] == a && b[0..] == b && a[..|a|] == a && b[..|b|] == b;
    while i < |a| && a[i] == b[i]
      invariant 0 <= i <= |a| && a[..i] == b[..i]
      invariant BytesBefore(a, b) <==> BytesBefore(a[i..], b[i..])
    {
      assert a[i..][1..] == a[i + 1..] && b[i..][1..] == b[i + 1..];
      i := i + 1;
    }
    return a[i] < b[i];
  }

  /** `order_addr` on two different addresses. */
  method OrderAddr(a: Address, b: Address) returns (smaller: bool)
    requires a != b
    ensures smaller <==> AddrBefore(a, b)
  {
    hide BytesBefore;
    if a.af != b.af {
      return a.af == Inet;
    }
    smaller := OrderBytes(a.bytes, b.bytes);
  }

  // ---------- the chain as a value ----------

  ghost predicate Sorted(s: seq<Locator>) {
    forall i, j | 0 <= i < j < |s| :: Precedes(s[i], s[j])
  }

  /** The first byte in which two addresses differ is smaller in the first one. */
  ghost predicate FirstSmaller(a: seq<bv8>, b: seq<bv8>) {
    exists k :: 0 <= k < |a| && k < |b| && a[..k] == b[..k] && a[k] < b[k]
  }

  lemma {:induction false} BytesBeforeMeans(a: seq<bv8>, b: seq<bv8>)
    ensures BytesBefore(a, b) <==> FirstSmaller(a, b)
    decreases |a|
  {
    if |a| > 0 && |b| > 0 {
      BytesBeforeMeans(a[1..], b[1..]);
      if a[0] < b[0] {
        assert a[..0] == b[..0];
      }
      if a[0] == b[0] && FirstSmaller(a[1..], b[1..]) {
        var k :| 0 <= k < |a[1..]| && k < |b[1..]| && a[1..][..k] == b[1..][..k] && a[1..][k] < b[1..][k];
        assert a[..k + 1] == [a[0]] + a[1..][..k] && b[..k + 1] == [b[0]] + b[1..][..k];
      }
      if FirstSmaller(a, b) {
        var k :| 0 <= k < |a| && k < |b| && a[..k] == b[..k] && a[k] < b[k];
        if k > 0 {
          assert a[0] == a[..k][0] && b[0] == b[..k][0];
          assert a[1..][..k - 1] == a[..k][1..] && b[1..][..k - 1] == b[..k][1..];
          assert a[1..][k - 1] < b[1..][k - 1];
        }
      }
    }
  }

  /** In a sorted chain the priorities do not fall; of one priority all IPv4 locators come before all IPv6
      ones, and each family comes in the order of its addresses. */
  lemma SortedMeans(s: seq<Locator>, i: nat, j: nat)
    requires Sorted(s) && i < j < |s|
    ensures s[i].priority <= s[j].priority
    ensures s[i].priority == s[j].priority ==> !(s[i].addr.af == Inet6 && s[j].addr.af == Inet)
    ensures s[i].priority == s[j].priority && s[i].addr.af == s[j].addr.af ==>
      FirstSmaller(s[i].addr.bytes, s[j].addr.bytes)
  {
    hide BytesBefore;
    BytesBeforeMeans(s[i].addr.bytes, s[j].addr.bytes);
  }

  ghost predicate HasAddr(s: seq<Locator>, a: Address) {
    exists i :: 0 <= i < |s| && s[i].addr == a
  }

  /** The chain with a locator put in before the first one that it does not follow. */
  function Inserted(s: seq<Locator>, r: Locator): (t: seq<Locator>)
    ensures |t| == |s| + 1
  {
    if s != [] && Precedes(s[0], r) then [s[0]] + Inserted(s[1..], r) else [r] + s
  }

  /** A locator before a sorted chain. */
  lemma SortedCons(a: Locator, s: seq<Locator>)
    requires Sorted(s) && forall x | x in s :: Precedes(a, x)
    ensures Sorted([a] + s) && multiset([a] + s) == multiset(s) + multiset{a}
  {
    hide Precedes;
  }

  lemma SortedTail(s: seq<Locator>, a: Address)
    requires s != [] && Sorted(s)
    ensures Sorted(s[1..]) && (HasAddr(s[1..], a) ==> HasAddr(s, a)) && (!HasAddr(s, a) ==> s[0].addr != a)
    ensures multiset(s) == multiset(s[1..]) + multiset{s[0]}
    ensures forall x | x in s[1..] :: Precedes(s[0], x)
  {
    hide Precedes;
    assert s == [s[0]] + s[1..];
  }

  /** Insertion of a new address keeps the chain sorted and adds that locator. */
  lemma {:induction false} InsertedSorted(s: seq<Locator>, r: Locator)
    requires Sorted(s) && !HasAddr(s, r.addr)
    ensures Sorted(Inserted(s, r)) && multiset(Inserted(s, r)) == multiset(s) + multiset{r}
  {
    hide Precedes, Sorted, HasAddr;
    if s == [] {
      SortedOne(r);
    } else {
      SortedTail(s, r.addr);
      if Precedes(s[0], r) {
        InsertedSorted(s[1..], r);
        forall x | x in Inserted(s[1..], r) ensures Precedes(s[0], x) {
          assert x in multiset(s[1..]) + multiset{r};
        }
        SortedCons(s[0], Inserted(s[1..], r));
      } else {
        OrderIsStrict(s[0], r);
        forall x | x in s ensures Precedes(r, x) {
          if x in s[1..] {
            OrderIsTransitive(r, s[0], x);
          }
        }
        SortedCons(r, s);
      }
    }
  }

  lemma SortedOne(r: Locator)
    ensures Sorted([r]) && Inserted([], r) == [r]
  {
  }

  lemma {:induction false} InsertedAt(s: seq<Locator>, r: Locator, p: nat)
    requires p <= |s| && (forall i | 0 <= i < p :: Precedes(s[i], r)) && (p < |s| ==> !Precedes(s[p], r))
    ensures Inserted(s, r) == s[..p] + [r] + s[p..]
  {
    hide Precedes;
    if p == 0 {
      assert s[..0] + [r] + s[0..] == [r] + s;
    } else {
      InsertedAt(s[1..], r, p - 1);
      PartsOf(s, r, p);
    }
  }

  lemma PartsOf<T>(s: seq<T>, r: T, p: nat)
    requires 0 < p <= |s|
    ensures [s[0]] + (s[1..][..p - 1] + [r] + s[1..][p - 1..]) == s[..p] + [r] + s[p..]
  {
    assert s[..p] == [s[0]] + s[1..][..p - 1] && s[p..] == s[1..][p - 1..];
  }

  // ---------- the chain in memory ----------

  /** `struct locator_chain`. */
  class Link {
    const rloc: Locator
    var hit: nat
    var next: Link?

    constructor (rloc: Locator)
      ensures this.rloc == rloc && next == null && hit == 0
    {
      this.rloc, hit, next := rloc, 0, null;
    }
  }

  ghost function Locators(ls: seq<Link>): (r: seq<Locator>)
    ensures |r| == |ls| && forall i | 0 <= i < |ls| :: r[i] == ls[i].rloc
  {
    seq(|ls|, i requires 0 <= i < |ls| => ls[i].rloc)
  }

  lemma LocatorsSplice(ls: seq<Link>, p: nat, n: Link)
    requires p <= |ls|
    ensures Locators(ls[..p] + [n] + ls[p..]) == Locators(ls)[..p] + [n.rloc] + Locators(ls)[p..]
  {
  }

  class Chain {
    var head: Link?
    /** The links in order. */
    ghost var links: seq<Link>

    ghost predicate Linked()
      reads this, links
    {
      && (forall i, j | 0 <= i < j < |links| :: links[i] != links[j])
      && (forall i | 1 <= i < |links| :: links[i - 1].next == links[i])
      && (if links == [] then head == null else head == links[0] && links[|links| - 1].next == null)
    }

    ghost function Contents(): seq<Locator>
      reads this
    {
      Locators(links)
    }

    constructor ()
      ensures Linked() && Contents() == []
    {
      head, links := null, [];
    }

    /** The link at a place of the chain, and null at its end. */
    ghost function At(i: nat): Link?
      requires i <= |links|
      reads this
    {
      if i < |links| then links[i] else null
    }

    lemma NextAt(i: nat)
      requires Linked() && i < |links|
      ensures links[i].next == At(i + 1)
    {
      if i + 1 < |links| {
        assert links[i + 1 - 1].next == links[i + 1];
      }
    }

    /** The scan of `map_insertrloc` for a duplicate. */
    method HasDuplicate(addr: Address) returns (found: bool)
      requires Linked()
      ensures found <==> HasAddr(Contents(), addr)
    {
      found := false;
      var rcp := head;
      ghost var i := 0;
      while rcp != null && !found
        invariant 0 <= i <= |links| && rcp == At(i)
        invariant found <==> HasAddr(Contents()[..i], addr)
        decreases |links| - i
      {
        NextAt(i);
        assert Contents()[..i + 1] == Contents()[..i] + [rcp.rloc];
        found := rcp.rloc.addr == addr;
        assert found ==> Contents()[..i + 1][i].addr == addr;
        rcp := rcp.next;
        i := i + 1;
      }
      assert !found ==> Contents()[..i] == Contents();
    }

    /** The walk of `map_insertrloc` to the place of a new locator. */
    method FindPlace(r: Locator) returns (rcpp: Link?, rcp: Link?, ghost p: nat)
      requires Linked() && !HasAddr(Contents(), r.addr)
      ensures p <= |links| && rcp == At(p) && rcpp == (if p == 0 then head else links[p - 1])
      ensures forall i | 0 <= i < p :: Precedes(Contents()[i], r)
      ensures p < |links| ==> !Precedes(Contents()[p], r)
    {
      hide AddrBefore;
      rcpp, rcp, p := head, head, 0;
      while rcp != null
        invariant p <= |links| && rcp == At(p) && rcpp == (if p == 0 then head else links[p - 1])
        invariant forall i | 0 <= i < p :: Precedes(Contents()[i], r)
        decreases |links| - p
      {
        NextAt(p);
        assert Contents()[p] == rcp.rloc && Contents()[p].addr != r.addr;
        var before := rcp.rloc.priority < r.priority;
        if rcp.rloc.priority == r.priority {
          before := OrderAddr(rcp.rloc.addr, r.addr);
        }
        if !before {
          return;
        }
        rcpp := rcp;
        rcp := rcp.next;
        p := p + 1;
      }
    }

    /** `map_insertrloc`: refuses a known address, and otherwise puts the locator in its place. */
    method Insert(r: Locator) returns (ok: bool)
      requires Linked()
      modifies this, links
      ensures Linked() && ok == !HasAddr(old(Contents()), r.addr)
      ensures Contents() == if ok then Inserted(old(Contents()), r) else old(Contents())
      ensures forall i | 0 <= i < |links| :: links[i] in old(links) || fresh(links[i])
    {
      hide Precedes, HasAddr, Inserted, Linked, At, Locators;
      var newrloc := new Link(r);
      var found := HasDuplicate(r.addr);
      if found {
        return false;
      }
      var rcpp, rcp, p := FindPlace(r);
      InsertedAt(Contents(), r, p);
      Splice(newrloc, rcpp, rcp, p);
      return true;
    }

    /** The end of `map_insertrloc`: at the end, at the head, or in between. */
    method Splice(newrloc: Link, rcpp: Link?, rcp: Link?, ghost p: nat)
      requires Linked() && newrloc !in links && newrloc.next == null
      requires p <= |links| && rcp == At(p) && rcpp == (if p == 0 then head else links[p - 1])
      modifies this, links, newrloc
      ensures Linked() && links == old(links)[..p] + [newrloc] + old(links)[p..]
      ensures Contents() == old(Contents())[..p] + [newrloc.rloc] + old(Contents())[p..]
    {
      hide Locators;
      LocatorsSplice(links, p, newrloc);
      SpliceLinks(newrloc, rcpp, rcp, p);
    }

    method SpliceLinks(newrloc: Link, rcpp: Link?, rcp: Link?, ghost p: nat)
      requires Linked() && newrloc !in links && newrloc.next == null
      requires p <= |links| && rcp == At(p) && rcpp == (if p == 0 then head else links[p - 1])
      modifies this, links, newrloc
      ensures Linked() && links == old(links)[..p] + [newrloc] + old(links)[p..]
    {
      ghost var more := links[..p] + [newrloc] + links[p..];
      assert forall i | 0 <= i < |more| ::
        more[i] == if i < p then links[i] else if i == p then newrloc else links[i - 1];
      if rcp == null {
        if rcpp != null {
          rcpp.next := newrloc;
        } else {
          head := newrloc;
        }
      } else if rcp == rcpp {
        FirstAlone(p);
        head := newrloc;
        newrloc.next := rcp;
      } else {
        newrloc.next := rcp;
        rcpp.next := newrloc;
      }
      links := more;
    }

    lemma FirstAlone(p: nat)
      requires Linked() && p < |links| && links[p] == (if p == 0 then head else links[p - 1])
      ensures p == 0
    {
    }

    // ---------- status bits and choice ----------

    /** `map_copylsbit`: bit i of the status bits, in network order, for the i-th locator that is
        up. The bits are added to those already there. */
    method CopyLsBits(locbits: set<nat>) returns (r: set<nat>)
      requires Linked()
      ensures r == locbits + UpBits(Contents(), 33)
    {
      r := locbits;
      var chain := head;
      var ct := 0;
      while chain != null && ct <= 32
        invariant 0 <= ct <= 33 && ct <= |links| && chain == At(ct)
        invariant r == locbits + UpBits(Contents(), ct)
        decreases |links| - ct
      {
        NextAt(ct);
        UpBitsStep(Contents(), ct);
        if chain.rloc.up {
          r := r + {ct % 32};
        }
        ct := ct + 1;
        chain := chain.next;
      }
      UpBitsAll(Contents(), ct);
    }

    /** `map_select_dstrloc`: stops at the first locator that is up or has priority 255. */
    method SelectDst() returns (drloc: Link?, ghost p: nat)
      requires Linked()
      modifies links`hit
      ensures Linked() && Contents() == old(Contents())
      ensures p <= |links| && drloc == At(p)
      ensures drloc == null ==> forall r | r in Contents() :: !Stops(r)
      ensures drloc != null ==> FirstStop(Contents(), p) && drloc.hit == old(drloc.hit) + 1
      ensures links == old(links) && forall l | l in links && l != drloc :: l.hit == old(l.hit)
    {
      hide FirstStop, Locators;
      drloc, p := FindStop();
      if drloc != null {
        drloc.hit := drloc.hit + 1;
      }
    }

    /** The search of `map_select_dstrloc`. */
    method FindStop() returns (lc: Link?, ghost p: nat)
      requires Linked()
      ensures p <= |links| && lc == At(p) && (lc != null ==> FirstStop(Contents(), p))
      ensures lc == null ==> forall r | r in Contents() :: !Stops(r)
    {
      lc, p := head, 0;
      while lc != null && !lc.rloc.up && lc.rloc.priority < MAX_RLOC_PRI
        invariant 0 <= p <= |links| && lc == At(p)
        invariant forall i | 0 <= i < p :: !Stops(Contents()[i])
        decreases |links| - p
      {
        NextAt(p);
        lc := lc.next;
        p := p + 1;
      }
    }
  }

  /** The bits of the first n locators that are up. */
  ghost function UpBits(s: seq<Locator>, n: nat): set<nat> {
    set i | 0 <= i < n && i < |s| && s[i].up :: i % 32
  }

  lemma UpBitsStep(s: seq<Locator>, n: nat)
    requires n < |s|
    ensures UpBits(s, n + 1) == UpBits(s, n) + if s[n].up then {n % 32} else {}
  {
  }

  lemma UpBitsAll(s: seq<Locator>, n: nat)
    requires n == 33 || n == |s| <= 33
    ensures UpBits(s, n) == UpBits(s, 33)
  {
  }

  /** Up to 32 locators have a bit each. */
  lemma BitsExact(s: seq<Locator>, i: nat)
    requires |s| <= 32
    ensures i in UpBits(s, 33) <==> i < |s| && s[i].up
  {
    if i < |s| && s[i].up {
      assert i % 32 == i;
    }
  }

  /** Beyond, the loop runs once too often: bit 0 is right exactly when the 33rd locator is not
      up or the first one is up too. */
  lemma BitsBeyond(s: seq<Locator>)
    requires |s| > 32
    ensures (forall i: nat :: i in UpBits(s, 33) <==> i < 32 && s[i].up) <==> (s[32].up ==> s[0].up)
  {
    forall i: nat ensures i in UpBits(s, 33) <==> (i < 32 && s[i].up) || (i == 0 && s[32].up) {
      if i < 32 && s[i].up {
        assert i % 32 == i;
      }
      if s[32].up {
        assert 32 % 32 == 0;
      }
    }
  }

  predicate Stops(r: Locator) {
    r.up || r.priority >= MAX_RLOC_PRI
  }

  predicate Usable(r: Locator) {
    r.up && r.priority < MAX_RLOC_PRI
  }

  ghost predicate FirstStop(s: seq<Locator>, p: nat) {
    p < |s| && Stops(s[p]) && forall i | 0 <= i < p :: !Stops(s[i])
  }

  /** On a sorted chain the choice is the first usable locator, if there is one; if there is
      none, what is chosen has priority 255. */
  lemma ChoiceIsLeast(s: seq<Locator>, p: nat)
    requires Sorted(s) && FirstStop(s, p)
    ensures Usable(s[p]) <==> exists r :: r in s && Usable(r)
    ensures Usable(s[p]) ==> forall r | r in s && Usable(r) && r != s[p] :: Precedes(s[p], r)
    ensures !Usable(s[p]) ==> s[p].priority >= MAX_RLOC_PRI
  {
    forall r | r in s && Usable(r) ensures r == s[p] || Precedes(s[p], r) {
      var i :| 0 <= i < |s| && s[i] == r;
      assert i >= p;
    }
    hide AddrBefore;
  }

  /** By the fields: the choice is up and below 255 exactly if some locator is, and then no such locator
      has a lower priority. */
  lemma ChoiceFields(s: seq<Locator>, p: nat)
    requires Sorted(s) && FirstStop(s, p)
    ensures (s[p].up && s[p].priority < 255) <==> exists r :: r in s && r.up && r.priority < 255
    ensures s[p].up && s[p].priority < 255 ==> forall r | r in s && r.up :: s[p].priority <= r.priority
  {
    hide AddrBefore;
    ChoiceIsLeast(s, p);
    forall r | r in s && r.up ensures s[p].up && s[p].priority < 255 ==> s[p].priority <= r.priority {
      assert r.priority < 255 ==> Usable(r);
    }
    if r :| r in s && r.up && r.priority < 255 {
      assert Usable(r);
    }
  }

  // ---------- map_setrlocs ----------

  /** A chain holds the first locators of a message. */
  ghost predicate Holding(s: seq<Locator>, rlocs: seq<Locator>, i: nat)
    requires i <= |rlocs|
  {
    Sorted(s) && multiset(s) == multiset(rlocs[..i]) && Distinct(rlocs[..i])
  }

  lemma HoldingStep(s: seq<Locator>, rlocs: seq<Locator>, i: nat)
    requires i < |rlocs| && Holding(s, rlocs, i)
    ensures HasAddr(s, rlocs[i].addr) ==> !Distinct(rlocs)
    ensures !HasAddr(s, rlocs[i].addr) ==> Holding(Inserted(s, rlocs[i]), rlocs, i + 1)
  {
    hide Precedes, HasAddr, Inserted, Sorted, Distinct;
    assert rlocs[..i + 1] == rlocs[..i] + [rlocs[i]];
    SameAddresses(s, rlocs[..i], rlocs[i].addr);
    DistinctStep(rlocs, i);
    if !HasAddr(s, rlocs[i].addr) {
      InsertedSorted(s, rlocs[i]);
    }
  }

  lemma HoldingEnds(s: seq<Locator>, rlocs: seq<Locator>)
    ensures Holding([], rlocs, 0)
    ensures Holding(s, rlocs, |rlocs|) ==> Sorted(s) && multiset(s) == multiset(rlocs) && Distinct(rlocs)
  {
    assert rlocs[..|rlocs|] == rlocs && rlocs[..0] == [];
  }

  /** The loop of `map_setrlocs`: no chain if a locator is refused. */
  method Build(rlocs: seq<Locator>, db: bool) returns (chain: Chain?)
    ensures chain == null <==> !Distinct(rlocs) || (db && HasNonce(rlocs, |rlocs|))
    ensures chain != null ==> fresh(chain) && fresh(chain.links)
    ensures chain != null ==> chain.Linked() && Holding(chain.Contents(), rlocs, |rlocs|)
  {
    hide Precedes, Locators, HasAddr, Inserted, Sorted, Distinct, Holding, HasNonce, Chain.Linked;
    chain := new Chain();
    HoldingEnds([], rlocs);
    NonceStep(rlocs, 0);
    for i := 0 to |rlocs|
      invariant chain != null && chain.Linked() && Holding(chain.Contents(), rlocs, i)
      invariant fresh(chain) && fresh(chain.links) && (db ==> !HasNonce(rlocs, i))
    {
      NonceStep(rlocs, i);
      if db && rlocs[i].txNonce {
        return null;
      }
      HoldingStep(chain.Contents(), rlocs, i);
      var ok := chain.Insert(rlocs[i]);
      if !ok {
        return null;
      }
    }
    HoldingEnds(chain.Contents(), rlocs);
  }

  /** One of the first n locators carries a nonce. */
  ghost predicate HasNonce(rlocs: seq<Locator>, n: nat)
    requires n <= |rlocs|
  {
    exists i | 0 <= i < n :: rlocs[i].txNonce
  }

  lemma NonceStep(rlocs: seq<Locator>, i: nat)
    requires i <= |rlocs|
    ensures !HasNonce(rlocs, 0)
    ensures i < |rlocs| ==> (HasNonce(rlocs, i + 1) <==> HasNonce(rlocs, i) || rlocs[i].txNonce)
    ensures i < |rlocs| && rlocs[i].txNonce ==> HasNonce(rlocs, |rlocs|)
    ensures HasNonce(rlocs, |rlocs|) <==> exists r :: r in rlocs && r.txNonce
  {
    if exists r :: r in rlocs && r.txNonce {
      var r :| r in rlocs && r.txNonce;
      var j :| 0 <= j < |rlocs| && rlocs[j] == r;
      assert rlocs[j].txNonce;
    }
  }

  /** `map_setrlocs`: builds a chain from the locators of a message, in the order of the message. A
      database entry must not carry a nonce. */
  method SetRlocs(rlocs: seq<Locator>, db: bool, lsbits: set<nat>) returns (chain: Option<Chain>, bits: set<nat>)
    ensures chain.Some? <==> Distinct(rlocs) && !(db && exists r :: r in rlocs && r.txNonce)
    ensures chain.Some? ==> chain.value.Linked() && Sorted(chain.value.Contents())
    ensures chain.Some? ==> multiset(chain.value.Contents()) == multiset(rlocs)
    ensures chain.Some? ==> bits == lsbits + UpBits(chain.value.Contents(), 33)
  {
    hide UpBits, Locators, Sorted, Distinct, Holding, HasNonce;
    NonceStep(rlocs, |rlocs|);
    var lc := Build(rlocs, db);
    if lc == null {
      return None, lsbits;
    }
    HoldingEnds(lc.Contents(), rlocs);
    bits := lc.CopyLsBits(lsbits);
    chain := Some(lc);
  }

  ghost predicate Distinct(s: seq<Locator>) {
    forall i, j | 0 <= i < j < |s| :: s[i].addr != s[j].addr
  }

  lemma DistinctStep(s: seq<Locator>, i: nat)
    requires i < |s| && Distinct(s[..i])
    ensures Distinct(s[..i + 1]) <==> !HasAddr(s[..i], s[i].addr)
    ensures HasAddr(s[..i], s[i].addr) ==> !Distinct(s)
  {
  }

  lemma SameAddresses(s: seq<Locator>, t: seq<Locator>, a: Address)
    requires multiset(s) == multiset(t)
    ensures HasAddr(s, a) <==> HasAddr(t, a)
  {
    forall x ensures x in s <==> x in t {
      assert x in multiset(s) <==> x in multiset(t);
    }
    assert HasAddr(s, a) <==> exists x :: x in s && x.addr == a;
    assert HasAddr(t, a) <==> exists x :: x in t && x.addr == a;
  }
}
