/** One slot of `mr_lookups` (udp.c): the lookup of an EID through the DDT hierarchy. A lookup
    holds a list of locators still to be asked, and the last referral it has accepted. */
module Resolver {
  import opened Types
  import opened Bits
  import opened Prefixes
  import opened Lists

  const MR_MAX_LOOKUP := 10

  /** The action of a Map-Referral record (section 6.4 of RFC 8111). */
  datatype Act = NodeReferral | MsReferral | MsAck | MsNotRegistered | DelegationHole | NotAuthoritative | OtherAct

  /** A record as the loop of `read_mr_ddt` sees it: its action, its EID prefix, and the
      locators of the database node that `_process_referral_record` has written. */
  datatype Referral = Referral(act: Act, pf: Prefix, learned: Option<Locs>)

  /** A lookup as a value. `accepted`, `learned` and `sent` are its history: the accepted
      referrals, and how many locators have come in and been asked. */
  datatype Lookup = Lookup(active: bool, last: Option<Prefix>, rlocs: Locs, count: nat,
                           accepted: seq<Key>, learned: nat, sent: nat)

  // ---------- the steps ----------

  /** What becomes of a packet handed to the socket. */
  datatype Fate = Delivered | Failed | Unsupported

  /** `send_mr_ddt`: the last locator of the list is asked, and leaves the list if that worked. */
  function AfterSend(l: Lookup, fate: Fate): Lookup {
    if !l.active then l
    else if l.rlocs == [] then l.(count := MR_MAX_LOOKUP + 1)
    else if fate != Delivered then l.(count := l.count + 1)
    else l.(count := l.count + 1, rlocs := l.rlocs[..|l.rlocs| - 1], sent := l.sent + 1)
  }

  /** Does the referral leave what was accepted before? */
  ghost predicate Loops(l: Lookup, pf: Prefix) {
    l.last.Some? && !(KeyOf(l.last.value) <= KeyOf(pf))
  }

  ghost function Free(l: Lookup): Lookup {
    l.(active := false, last := None, rlocs := [])
  }

  /** One record of a Map-Referral. */
  ghost function AfterRecord(l: Lookup, r: Referral): Lookup {
    match r.act
    case MsAck => Free(l)
    case DelegationHole => Free(l)
    case NotAuthoritative => Free(l)
    case NodeReferral => AfterReferral(l, r)
    case MsReferral => AfterReferral(l, r)
    case MsNotRegistered => l
    case OtherAct => l
  }

  ghost function AfterReferral(l: Lookup, r: Referral): Lookup {
    if Loops(l, r.pf) then Free(l)
    else if l.last.None? || r.pf.len > l.last.value.len then Extended(l, r)
    else l
  }

  ghost function Extended(l: Lookup, r: Referral): Lookup {
    var more := if r.learned.Some? then r.learned.value else [];
    l.(last := Some(r.pf), rlocs := l.rlocs + more, accepted := l.accepted + [KeyOf(r.pf)],
       learned := l.learned + |more|)
  }

  /** All records of one message: the loop stops when the lookup ends. */
  ghost function AfterRecords(l: Lookup, rs: seq<Referral>): Lookup
    decreases |rs|
  {
    if rs == [] || !l.active then l else AfterRecords(AfterRecord(l, rs[0]), rs[1..])
  }

  // ---------- the invariant ----------

  /** Every accepted referral lies strictly inside the one before it. */
  ghost predicate Nested(ks: seq<Key>) {
    forall i | 1 <= i < |ks| :: ks[i - 1] < ks[i]
  }

  ghost predicate Inv(l: Lookup) {
    && Nested(l.accepted) && (forall k | k in l.accepted :: |k| <= 128)
    && (l.active ==> l.sent + |l.rlocs| == l.learned)
    && (l.active ==> (l.last.None? <==> l.accepted == []))
    && (l.active && l.last.Some? ==> KeyOf(l.last.value) == l.accepted[|l.accepted| - 1])
  }

  lemma SendKeepsInv(l: Lookup, fate: Fate)
    requires Inv(l)
    ensures Inv(AfterSend(l, fate)) && AfterSend(l, fate).accepted == l.accepted
  {
  }

  lemma RecordKeepsInv(l: Lookup, r: Referral)
    requires Inv(l) && l.active
    ensures Inv(AfterRecord(l, r)) && l.accepted <= AfterRecord(l, r).accepted
  {
    hide KeyOf;
    if r.act == NodeReferral || r.act == MsReferral {
      ReferralKeepsInv(l, r);
    }
  }

  lemma ReferralKeepsInv(l: Lookup, r: Referral)
    requires Inv(l) && l.active
    ensures Inv(AfterReferral(l, r)) && l.accepted <= AfterReferral(l, r).accepted
  {
    hide KeyOf;
    var k := KeyOf(r.pf);
    if !Loops(l, r.pf) && (l.last.None? || r.pf.len > l.last.value.len) {
      assert Nested(l.accepted + [k]);
    }
  }

  lemma {:induction false} RecordsKeepInv(l: Lookup, rs: seq<Referral>)
    requires Inv(l)
    ensures Inv(AfterRecords(l, rs)) && l.accepted <= AfterRecords(l, rs).accepted
    decreases |rs|
  {
    hide Inv, AfterRecord;
    if rs != [] && l.active {
      RecordKeepsInv(l, rs[0]);
      RecordsKeepInv(AfterRecord(l, rs[0]), rs[1..]);
    }
  }

  // ---------- whole runs ----------

  /** A retry of `send_mr_ddt`, or a message followed by the send at the end of `read_mr_ddt`. */
  datatype Event = Retry(fate: Fate) | Message(records: seq<Referral>, fate: Fate)

  ghost function After(l: Lookup, e: Event): Lookup {
    match e
    case Retry(fate) => AfterSend(l, fate)
    case Message(rs, fate) => AfterSend(AfterRecords(l, rs), fate)
  }

  ghost function Run(l: Lookup, es: seq<Event>): Lookup
    decreases |es|
  {
    if es == [] then l else Run(After(l, es[0]), es[1..])
  }

  /** The state after `mr_new_lookup`, before its first send. */
  function Fresh(rlocs: Locs): Lookup {
    Lookup(true, None, rlocs, 0, [], |rlocs|, 0)
  }

  lemma {:induction false} RunKeepsInv(l: Lookup, es: seq<Event>)
    requires Inv(l)
    ensures Inv(Run(l, es)) && l.accepted <= Run(l, es).accepted
    decreases |es|
  {
    hide Inv, AfterRecords, AfterSend;
    if es != [] {
      match es[0] {
        case Retry(fate) => SendKeepsInv(l, fate);
        case Message(rs, fate) =>
          RecordsKeepInv(l, rs);
          SendKeepsInv(AfterRecords(l, rs), fate);
      }
      RunKeepsInv(After(l, es[0]), es[1..]);
    }
  }

  lemma {:induction false} NestedLengths(ks: seq<Key>, i: nat)
    requires Nested(ks) && i < |ks|
    ensures i <= |ks[i]| && forall j | 0 <= j <= i :: ks[j] <= ks[i]
  {
    if i > 0 {
      NestedLengths(ks, i - 1);
      assert ks[i - 1] < ks[i];
    }
  }

  /** No referral loop: over every run the accepted prefixes form a strictly nested chain, so
      there are at most 129 of them; and no locator is lost: those asked and those still to be
      asked are those that have come in. */
  lemma LookupRun(rlocs: Locs, es: seq<Event>)
    ensures var l := Run(Fresh(rlocs), es);
      && Nested(l.accepted) && |l.accepted| <= 129
      && (forall i, j | 0 <= i < j < |l.accepted| :: l.accepted[i] < l.accepted[j])
      && (l.active ==> l.sent + |l.rlocs| == l.learned)
  {
    RunKeepsInv(Fresh(rlocs), es);
    var l := Run(Fresh(rlocs), es);
    hide Run;
    var ks := l.accepted;
    if ks != [] {
      NestedLengths(ks, |ks| - 1);
    }
    forall i, j | 0 <= i < j < |ks| ensures ks[i] < ks[j] {
      NestedLengths(ks, j - 1);
      assert ks[j - 1] < ks[j];
    }
  }

  // ---------- what is followed ----------

  predicate IsReferral(r: Referral) {
    r.act in {NodeReferral, MsReferral}
  }

  ghost function LastKey(l: Lookup): Option<Key> {
    if l.last.None? then None else Some(KeyOf(l.last.value))
  }

  /** The referral lies inside what was accepted last; strictly inside. */
  ghost predicate Inside(last: Option<Key>, r: Referral) {
    last.Some? ==> last.value <= KeyOf(r.pf)
  }

  ghost predicate Descends(last: Option<Key>, r: Referral) {
    last.Some? ==> last.value < KeyOf(r.pf)
  }

  /** The answers that end a lookup. */
  ghost predicate Ends(last: Option<Key>, r: Referral) {
    r.act in {MsAck, DelegationHole, NotAuthoritative} || (IsReferral(r) && !Inside(last, r))
  }

  /** A record ends the lookup exactly if it is one of those; a referral strictly inside the last one is
      followed: it is the new last one, and its locators come behind the others; everything else
      changes nothing. */
  lemma RecordDecides(l: Lookup, r: Referral)
    requires l.active
    ensures var n := AfterRecord(l, r);
      && (n.active <==> !Ends(LastKey(l), r))
      && (Ends(LastKey(l), r) ==> n.rlocs == [] && n.last == None && n.accepted == l.accepted)
      && (IsReferral(r) && Descends(LastKey(l), r) ==>
            n.last == Some(r.pf) && n.accepted == l.accepted + [KeyOf(r.pf)]
            && n.rlocs == l.rlocs + Learned(r) && n.learned == l.learned + |Learned(r)|)
      && (!Ends(LastKey(l), r) && !(IsReferral(r) && Descends(LastKey(l), r)) ==> n == l)
      && n.count == l.count && n.sent == l.sent
  {
    hide KeyOf;
    if l.last.Some? {
      ProperPrefix(KeyOf(l.last.value), KeyOf(r.pf));
    }
  }

  function Learned(r: Referral): Locs {
    if r.learned.Some? then r.learned.value else []
  }

  lemma ProperPrefix(a: Key, b: Key)
    ensures a <= b ==> (a < b <==> |a| < |b|)
  {
    assert a <= b && |a| == |b| ==> a == b;
  }

  /** The prefixes that a sequence of records leads to, from the last one on. */
  ghost function Followed(last: Option<Key>, rs: seq<Referral>): seq<Key>
    decreases |rs|
  {
    if rs == [] || Ends(last, rs[0]) then []
    else if IsReferral(rs[0]) && Descends(last, rs[0]) then [KeyOf(rs[0].pf)] + Followed(Some(KeyOf(rs[0].pf)), rs[1..])
    else Followed(last, rs[1..])
  }

  /** None of the records ends the lookup. */
  ghost predicate GoesOn(last: Option<Key>, rs: seq<Referral>)
    decreases |rs|
  {
    rs == [] || (!Ends(last, rs[0])
      && GoesOn(if IsReferral(rs[0]) && Descends(last, rs[0]) then Some(KeyOf(rs[0].pf)) else last, rs[1..]))
  }

  ghost function AllRecords(es: seq<Event>): seq<Referral> {
    if es == [] then [] else (if es[0].Message? then es[0].records else []) + AllRecords(es[1..])
  }

  lemma {:induction false} RecordsFollow(l: Lookup, rs: seq<Referral>, more: seq<Referral>)
    requires l.active
    ensures var n := AfterRecords(l, rs);
      && l.accepted + Followed(LastKey(l), rs + more)
        == n.accepted + (if n.active then Followed(LastKey(n), more) else [])
      && (GoesOn(LastKey(l), rs + more) <==> n.active && GoesOn(LastKey(n), more))
    decreases |rs|
  {
    hide AfterRecord, Ends, Descends, KeyOf;
    if rs == [] {
      assert rs + more == more;
    } else {
      var n := AfterRecord(l, rs[0]);
      RecordDecides(l, rs[0]);
      assert (rs + more)[1..] == rs[1..] + more;
      if n.active {
        RecordsFollow(n, rs[1..], more);
      } else {
        EndedStays(n, rs[1..]);
      }
    }
  }

  lemma EndedStays(l: Lookup, rs: seq<Referral>)
    requires !l.active
    ensures AfterRecords(l, rs) == l
  {
  }
  lemma AllRecordsStep(es: seq<Event>)
    requires es != []
    ensures es[0].Message? ==> AllRecords(es) == es[0].records + AllRecords(es[1..])
    ensures !es[0].Message? ==> AllRecords(es) == AllRecords(es[1..])
  {
    assert !es[0].Message? ==> [] + AllRecords(es[1..]) == AllRecords(es[1..]);
  }

  lemma SendKeepsLast(l: Lookup, fate: Fate)
    ensures AfterSend(l, fate).active == l.active && AfterSend(l, fate).last == l.last
    ensures AfterSend(l, fate).accepted == l.accepted
  {
  }

  lemma {:induction false} RunFollows(l: Lookup, es: seq<Event>)
    ensures Run(l, es).accepted == l.accepted + (if l.active then Followed(LastKey(l), AllRecords(es)) else [])
    ensures Run(l, es).active <==> l.active && GoesOn(LastKey(l), AllRecords(es))
    decreases |es|
  {
    hide AfterRecords, AfterSend, AllRecords, Followed, GoesOn, KeyOf;
    if es == [] {
      NothingFollowed(LastKey(l));
    } else {
      var m := After(l, es[0]);
      AllRecordsStep(es);
      RunFollows(m, es[1..]);
      match es[0] {
        case Retry(fate) => SendKeepsLast(l, fate);
        case Message(rs, fate) =>
          SendKeepsLast(AfterRecords(l, rs), fate);
          if l.active {
            RecordsFollow(l, rs, AllRecords(es[1..]));
          } else {
            EndedStays(l, rs);
          }
      }
    }
  }

  lemma NothingFollowed(last: Option<Key>)
    ensures AllRecords([]) == [] && Followed(last, []) == [] && GoesOn(last, [])
  {
  }

  /** Over every run exactly the referrals that descend are followed, in the order in which they come, up
      to the answer that ends the lookup; and it goes on as long as none does. */
  lemma LookupFollows(rlocs: Locs, es: seq<Event>)
    ensures Run(Fresh(rlocs), es).accepted == Followed(None, AllRecords(es))
    ensures Run(Fresh(rlocs), es).active <==> GoesOn(None, AllRecords(es))
  {
    hide Followed, GoesOn, AllRecords, Run;
    RunFollows(Fresh(rlocs), es);
  }

  /** k requests that go out. */
  function Sends(l: Lookup, k: nat): Lookup {
    if k == 0 then l else AfterSend(Sends(l, k - 1), Delivered)
  }

  /** The locators of the latest referral are asked first, the last of them before the others; those
      known before are kept for later. */
  lemma {:induction false} NewestFirst(l: Lookup, k: nat, before: Locs, more: Locs)
    requires l.active && l.rlocs == before + more && k <= |more|
    ensures Sends(l, k).active && Sends(l, k).rlocs == before + more[..|more| - k]
    ensures Sends(l, k).sent == l.sent + k && Sends(l, k).count == l.count + k
  {
    if k == 0 {
      assert more[..|more|] == more;
    } else {
      NewestFirst(l, k - 1, before, more);
    }
  }

  /** A request that does not go out is counted too, and no locator is lost by it; with none left to be
      asked the lookup is beyond its limit. */
  lemma FailedSend(l: Lookup, fate: Fate)
    requires l.active && (fate != Delivered || l.rlocs == [])
    ensures var n := AfterSend(l, fate);
      n.rlocs == l.rlocs && n.sent == l.sent && n.active
      && (if l.rlocs == [] then n.count > MR_MAX_LOOKUP else n.count == l.count + 1)
  {
  }

  // ---------- the slot in memory ----------

  /** `struct eid_pending`. */
  class Slot {
    var active: bool
    var last: Option<Prefix>
    var count: nat
    var rlocs: List<MapEntry>
    var cur: Entry?<MapEntry>
    ghost var accepted: seq<Key>
    ghost var learned: nat
    ghost var sent: nat

    /** `rloc_cur` is the last entry of the list, and NULL exactly when the list is empty. */
    ghost predicate Valid()
      reads this, rlocs, rlocs.all
    {
      rlocs.Valid() && cur == if rlocs.count == 0 then null else rlocs.all[rlocs.count]
    }

    ghost function Now(): Lookup
      requires Valid()
      reads this, rlocs, rlocs.all
    {
      Lookup(active, last, rlocs.Contents(), count, accepted, learned, sent)
    }

    /** The slot part of `mr_new_lookup`: copies the locators of the database node. */
    constructor (l: Locs)
      ensures Valid() && Now() == Fresh(l) && fresh(rlocs) && fresh(rlocs.all)
    {
      active, last, count, cur := true, None, 0, null;
      rlocs := new List();
      accepted, learned, sent := [], |l|, 0;
      new;
      AddAll(l);
    }

    /** The loop that appends copies of locators, and `rloc_cur` after it. */
    method AddAll(more: Locs)
      requires rlocs.Valid()
      modifies this`cur, rlocs, rlocs.all
      ensures Valid() && rlocs.Contents() == old(rlocs.Contents()) + more
      ensures forall i | 0 <= i < |rlocs.all| :: rlocs.all[i] in old(rlocs.all) || fresh(rlocs.all[i])
    {
      AppendAll(more);
      cur := null;
      if rlocs.count > 0 {
        rlocs.LastEntry();
        cur := rlocs.tail.previous;
      }
    }

    method AppendAll(more: Locs)
      requires rlocs.Valid()
      modifies rlocs, rlocs.all
      ensures rlocs.Valid() && rlocs.Contents() == old(rlocs.Contents()) + more
      ensures forall i | 0 <= i < |rlocs.all| :: rlocs.all[i] in old(rlocs.all) || fresh(rlocs.all[i])
    {
      hide Distinct, DataOf;
      for i := 0 to |more|
        invariant rlocs.Valid() && rlocs.Contents() == old(rlocs.Contents()) + more[..i]
        invariant forall i | 0 <= i < |rlocs.all| :: rlocs.all[i] in old(rlocs.all) || fresh(rlocs.all[i])
      {
        rlocs.Append(more[i]);
      }
    }

    /** `send_mr_ddt`. */
    method Send(fate: Fate)
      requires Valid()
      modifies this, rlocs, rlocs.all
      ensures Valid() && Now() == AfterSend(old(Now()), fate) && rlocs == old(rlocs)
      ensures forall i | 0 <= i < |rlocs.all| :: rlocs.all[i] in old(rlocs.all)
    {
      hide Distinct, DataOf;
      if !active {
        return;
      }
      if cur == null {
        count := MR_MAX_LOOKUP + 1;
        return;
      }
      if fate != Delivered {
        count := count + 1;
        return;
      }
      count := count + 1;
      DropCurrent();
      sent := sent + 1;
    }

    /** The end of `send_mr_ddt`: the entry that was asked is removed, and its predecessor is next. */
    method DropCurrent()
      requires Valid() && cur != null
      modifies this`cur, rlocs, rlocs.all
      ensures Valid() && rlocs.Contents() == old(rlocs.Contents())[..|old(rlocs.Contents())| - 1]
      ensures forall i | 0 <= i < |rlocs.all| :: rlocs.all[i] in old(rlocs.all)
    {
      var lr := cur;
      if rlocs.count >= 1 {
        var ld := lr;
        if rlocs.count > 1 {
          lr := lr.previous;
        } else {
          lr := null;
        }
        var done := rlocs.Remove(ld, rlocs.count - 1);
      } else {
        lr := null;
      }
      cur := lr;
    }

    /** `free_lookups`; an inactive slot has no locators. */
    method Release()
      requires Valid() && active
      modifies this
      ensures Valid() && Now() == Free(old(Now())) && !active && fresh(rlocs) && fresh(rlocs.all)
    {
      last, active, cur := None, false, null;
      rlocs := new List();
    }

    /** The update of the pending lookup: the referral is remembered, its locators are added. */
    method Accept(r: Referral)
      requires Valid()
      modifies this, rlocs, rlocs.all
      ensures Valid() && Now() == Extended(old(Now()), r) && active == old(active)
      ensures rlocs == old(rlocs)
      ensures forall i | 0 <= i < |rlocs.all| :: rlocs.all[i] in old(rlocs.all) || fresh(rlocs.all[i])
    {
      hide KeyOf, Distinct, DataOf;
      last := Some(r.pf);
      accepted := accepted + [KeyOf(r.pf)];
      if r.learned.Some? {
        learned := learned + |r.learned.value|;
        AddAll(r.learned.value);
      }
    }

    /** A referral to another node or to a Map-Server: the loop check, then the update. */
    method Refer(r: Referral)
      requires Valid() && active
      modifies this, rlocs, rlocs.all
      ensures Valid() && Now() == AfterReferral(old(Now()), r)
      ensures rlocs == old(rlocs) || (!active && fresh(rlocs))
      ensures forall i | 0 <= i < |rlocs.all| :: rlocs.all[i] in old(rlocs.all) || fresh(rlocs.all[i])
    {
      hide KeyOf, Distinct, DataOf, Extended, Free;
      if last.Some? {
        var inside := PrefixMatch(last.value, r.pf);
        if !inside {
          Release();
          return;
        }
      }
      if last.None? || r.pf.len > last.value.len {
        Accept(r);
      }
    }

    /** The switch over the action of a record. */
    method Record(r: Referral)
      requires Valid() && active
      modifies this, rlocs, rlocs.all
      ensures Valid() && Now() == AfterRecord(old(Now()), r)
      ensures rlocs == old(rlocs) || (!active && fresh(rlocs))
      ensures forall i | 0 <= i < |rlocs.all| :: rlocs.all[i] in old(rlocs.all) || fresh(rlocs.all[i])
    {
      hide Distinct, DataOf, AfterReferral, Free;
      match r.act {
        case NodeReferral => Refer(r);
        case MsReferral => Refer(r);
        case MsAck => Release();
        case DelegationHole => Release();
        case NotAuthoritative => Release();
        case MsNotRegistered =>
        case OtherAct =>
      }
    }

    /** `read_mr_ddt` on a Map-Referral with the nonce of this lookup: record by record, then the
        next send. */
    method Read(records: seq<Referral>, fate: Fate)
      requires Valid() && active
      modifies this, rlocs, rlocs.all
      ensures Valid() && Now() == After(old(Now()), Message(records, fate))
      ensures rlocs == old(rlocs) || fresh(rlocs)
      ensures forall i | 0 <= i < |rlocs.all| :: rlocs.all[i] in old(rlocs.all) || fresh(rlocs.all[i])
    {
      hide Distinct, DataOf, AfterRecord, AfterSend, Free;
      var i := 0;
      assert records[0..] == records;
      while i < |records|
        invariant 0 <= i <= |records| && Valid() && active && rlocs == old(rlocs)
        invariant forall k | 0 <= k < |rlocs.all| :: rlocs.all[k] in old(rlocs.all) || fresh(rlocs.all[k])
        invariant AfterRecords(Now(), records[i..]) == AfterRecords(old(Now()), records)
      {
        assert records[i..][0] == records[i] && records[i..][1..] == records[i + 1..];
        Record(records[i]);
        if !active {
          SendInactive(Now(), fate);
          return;
        }
        i := i + 1;
      }
      Send(fate);
    }
  }

  lemma SendInactive(l: Lookup, fate: Fate)
    requires !l.active
    ensures AfterSend(l, fate) == l
  {
  }

  /** A lookup from its first send on: whatever comes in and times out, the code makes the run that
      `LookupRun` is about. */
  method Session(slot: Slot, es: seq<Event>)
    requires slot.Valid()
    modifies slot, slot.rlocs, slot.rlocs.all
    ensures slot.Valid() && slot.Now() == Run(old(slot.Now()), es)
  {
    hide Distinct, DataOf, After;
    assert es[0..] == es;
    for i := 0 to |es|
      invariant slot.Valid() && Run(slot.Now(), es[i..]) == Run(old(slot.Now()), es)
      invariant slot.rlocs == old(slot.rlocs) || fresh(slot.rlocs)
      invariant forall k | 0 <= k < |slot.rlocs.all| ::
        slot.rlocs.all[k] in old(slot.rlocs.all) || fresh(slot.rlocs.all[k])
    {
      assert es[i..][0] == es[i] && es[i..][1..] == es[i + 1..];
      OneEvent(slot, es[i]);
    }
  }

  /** A message with the nonce of a slot reaches it only while it is active. */
  method OneEvent(slot: Slot, e: Event)
    requires slot.Valid()
    modifies slot, slot.rlocs, slot.rlocs.all
    ensures slot.Valid() && slot.Now() == After(old(slot.Now()), e)
    ensures slot.rlocs == old(slot.rlocs) || fresh(slot.rlocs)
    ensures forall k | 0 <= k < |slot.rlocs.all| ::
      slot.rlocs.all[k] in old(slot.rlocs.all) || fresh(slot.rlocs.all[k])
  {
    hide Distinct, DataOf, AfterRecord;
    match e {
      case Retry(fate) => slot.Send(fate);
      case Message(records, fate) =>
        if slot.active {
          slot.Read(records, fate);
        }
    }
  }
}
