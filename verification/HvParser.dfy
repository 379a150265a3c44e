/** The hypervisor's own parser of control messages (parsedatagram.c), and its agreement with the
    control plane's. */
module HvParser {
  import opened Types
  import opened Wire
  import Requests

  datatype Reason = UnknownType | Malformed | UnknownIp | EmptyAfi | MapReply | MapNotify

  /** `ipv6_prefix`: a prefix of 16 octets as it is, no address at all, or all of them. */
  datatype HvPrefix = AsIs(len: nat, octets: Packet) | Undefined(reason: Reason) | Broadcast(reason: Reason)

  // ---------- what the parser computes ----------

  /** The size of a couple of AFI and address. */
  function CoupleSize(s: Packet): Option<nat> {
    if Short(s, 0) == 0 then Some(2) else if Short(s, 0) == AFI_IP then Some(6)
    else if Short(s, 0) == AFI_IPV6 then Some(18) else None
  }

  /** The offset after n couples, each of which must end before the datagram. */
  function SkipAll(s: Packet, offset: nat, n: nat): Option<nat>
    decreases n
  {
    if n == 0 then Some(offset)
    else match CoupleSize(Drop(s, offset))
      case None => None
      case Some(k) => if offset + k >= |s| then None else SkipAll(s, offset + k, n - 1)
  }

  /** An IPv4 address as an IPv4-mapped IPv6 address. */
  function Mapped(a: Packet): Packet {
    [0, 0, 0, 0, 0, 0, 0, 0, 0, 0, 255, 255] + a
  }

  /** The record at an offset: only the mask length, AFI and address of the first one. The
      length of the mapped prefix is kept in eight bits. */
  function FirstRecord(s: Packet, offset: nat): HvPrefix {
    var afi := Short(s, offset + 2);
    if afi == AFI_IP then AsIs((At(s, offset + 1) + 96) % 256, Mapped(Octets(s, offset + 4, 4)))
    else if afi == AFI_IPV6 then AsIs(At(s, offset + 1), Octets(s, offset + 4, 16))
    else if afi == 0 then Undefined(EmptyAfi)
    else Undefined(UnknownIp)
  }

  /** Source EID and ITRs are skipped alike. */
  function RequestEid(s: Packet): HvPrefix {
    match SkipAll(s, 12, 1 + (At(s, 2) % 32 + 1))
    case None => Undefined(Malformed)
    case Some(offset) => FirstRecord(s, offset)
  }

  /** Where the inner message of an encapsulation starts. */
  function InnerOffset(s: Packet): Option<nat> {
    if At(s, 4) / 16 == 4 then Some(4 + At(s, 4) % 16 * 4 + 8)
    else if At(s, 4) / 16 == 6 then Some(4 + 40 + 8)
    else None
  }

  /** `extract_eid_cp`, through any number of encapsulations. */
  function MessageEid(s: Packet): HvPrefix
    decreases |s|
  {
    var kind := At(s, 0) / 16;
    if kind == 1 then RequestEid(s)
    else if kind == 2 then Broadcast(MapReply)
    else if kind == 4 then Broadcast(MapNotify)
    else if kind == 8 then
      match InnerOffset(s)
      case None => Undefined(UnknownIp)
      case Some(offset) => if offset >= |s| then Undefined(Malformed) else MessageEid(s[offset..])
    else Undefined(UnknownType)
  }

  // ---------- the code ----------

  /** `skip_afi_address_couple`. */
  method SkipCouple(s: Packet, offset: nat) returns (ok: bool, next: nat)
    ensures ok == CoupleSize(Drop(s, offset)).Some?
    ensures ok ==> next == offset + CoupleSize(Drop(s, offset)).value
  {
    DropAt(s, offset, 0);
    DropAt(s, offset, 1);
    var afi := Short(s, offset);
    if afi == 0 {
      return true, offset + 2;
    } else if afi == AFI_IP {
      return true, offset + 2 + 4;
    } else if afi == AFI_IPV6 {
      return true, offset + 2 + 16;
    }
    return false, offset;
  }

  /** The ITR loop of `extract_eid_maprequest`. */
  method SkipItrs(s: Packet, from: nat, count: nat) returns (ok: bool, offset: nat)
    ensures ok == SkipAll(s, from, count).Some?
    ensures ok ==> offset == SkipAll(s, from, count).value
  {
    hide CoupleSize;
    offset := from;
    var i := 0;
    while i < count
      invariant 0 <= i <= count
      invariant SkipAll(s, from, count) == SkipAll(s, offset, count - i)
    {
      ok, offset := SkipCouple(s, offset);
      if !ok || offset >= |s| {
        return false, offset;
      }
      i := i + 1;
    }
    ok := true;
  }

  lemma SourceFirst(s: Packet, n: nat)
    ensures SkipAll(s, 12, 1 + n) ==
      match CoupleSize(Drop(s, 12))
      case None => None
      case Some(k) => if 12 + k >= |s| then None else SkipAll(s, 12 + k, n)
  {
  }

  /** `extract_eid_maprequest`: skips with one offset, then reads the first record. */
  method ExtractRequest(s: Packet) returns (r: HvPrefix)
    ensures r == RequestEid(s)
  {
    hide CoupleSize, FirstRecord, SkipAll;
    var count := At(s, 2) % 32 + 1;
    SourceFirst(s, count);
    var ok, offset := SkipCouple(s, 12);
    if !ok || offset >= |s| {
      return Undefined(Malformed);
    }
    ok, offset := SkipItrs(s, offset, count);
    if !ok {
      return Undefined(Malformed);
    }
    offset := offset + 1;
    var len := At(s, offset);
    offset := offset + 1;
    r := ProcessCouple(s, offset, len);
  }

  /** `process_afi_address_couple`. */
  method ProcessCouple(s: Packet, at: nat, len: nat) returns (r: HvPrefix)
    requires at >= 2 && len == At(s, at - 1)
    ensures r == FirstRecord(s, at - 2)
  {
    var afi := Short(s, at);
    if afi == AFI_IP {
      r := AsIs((len + 96) % 256, Mapped(Octets(s, at + 2, 4)));
    } else if afi == AFI_IPV6 {
      r := AsIs(len, Octets(s, at + 2, 16));
    } else if afi == 0 {
      r := Undefined(EmptyAfi);
    } else {
      r := Undefined(UnknownIp);
    }
  }

  /** `extract_eid_cp` and `extract_eid_encapsulated`. The recursion ends: every step takes off
      at least 12 octets. */
  method ExtractEid(s: Packet) returns (r: HvPrefix)
    ensures r == MessageEid(s)
    decreases |s|
  {
    hide RequestEid;
    var kind := At(s, 0) / 16;
    if kind == 1 {
      r := ExtractRequest(s);
    } else if kind == 2 {
      r := Broadcast(MapReply);
    } else if kind == 4 {
      r := Broadcast(MapNotify);
    } else if kind == 8 {
      var offset := 4;
      var version := At(s, offset) / 16;
      if version == 4 {
        offset := offset + At(s, offset) % 16 * 4 + 8;
      } else if version == 6 {
        offset := offset + 40 + 8;
      } else {
        return Undefined(UnknownIp);
      }
      if offset >= |s| {
        return Undefined(Malformed);
      }
      r := ExtractEid(s[offset..]);
    } else {
      r := Undefined(UnknownType);
    }
  }

  // ---------- the outcome for every message ----------

  /** The message inside all encapsulations: each takes four octets, its IP header and a UDP header; none
      if a header is of another version or leaves nothing. */
  function Innermost(s: Packet): Option<Packet>
    decreases |s|
  {
    if At(s, 0) / 16 != 8 then Some(s)
    else
      var header := if At(s, 4) / 16 == 4 then 4 * (At(s, 4) % 16) else 40;
      if At(s, 4) / 16 !in {4, 6} || 12 + header >= |s| then None else Innermost(s[12 + header..])
  }

  /** The type of the innermost message decides: a Map-Reply and a Map-Notify are for everybody, a
      Map-Request is for its EID, all else for nobody. */
  lemma {:induction false} MessageKind(s: Packet)
    ensures match Innermost(s)
      case None => MessageEid(s) == Undefined(UnknownIp) || MessageEid(s) == Undefined(Malformed)
      case Some(t) =>
        && (At(t, 0) / 16 == 1 ==> MessageEid(s) == RequestEid(t))
        && (At(t, 0) / 16 == 2 <==> MessageEid(s) == Broadcast(MapReply))
        && (At(t, 0) / 16 == 4 <==> MessageEid(s) == Broadcast(MapNotify))
        && (At(t, 0) / 16 !in {1, 2, 4} <==> MessageEid(s) == Undefined(UnknownType))
    decreases |s|
  {
    hide RequestEid;
    if At(s, 0) / 16 == 8 {
      var header := if At(s, 4) / 16 == 4 then 4 * (At(s, 4) % 16) else 40;
      if At(s, 4) / 16 in {4, 6} && 12 + header < |s| {
        MessageKind(s[12 + header..]);
      }
    } else if At(s, 0) / 16 == 1 {
      RequestIsNot(s);
    }
  }

  lemma RequestIsNot(s: Packet)
    ensures !RequestEid(s).Broadcast? && RequestEid(s) != Undefined(UnknownType)
  {
    hide SkipAll;
  }

  /** A couple of AFI and address begins at one place, and the next one inside the datagram. */
  ghost predicate Couple(s: Packet, p: nat, q: nat) {
    q < |s| && ((Short(s, p) == 0 && q == p + 2) || (Short(s, p) == AFI_IP && q == p + 6)
                || (Short(s, p) == AFI_IPV6 && q == p + 18))
  }

  /** The places where couples begin, one behind the other. */
  ghost predicate Places(s: Packet, ps: seq<nat>) {
    |ps| > 0 && forall i, j | 0 <= i && j == i + 1 && j < |ps| :: Couple(s, ps[i], ps[j])
  }

  lemma CoupleIs(s: Packet, p: nat, q: nat)
    ensures Couple(s, p, q) <==> CoupleSize(Drop(s, p)).Some? && q == p + CoupleSize(Drop(s, p)).value && q < |s|
  {
    DropAt(s, p, 0);
    DropAt(s, p, 1);
  }

  lemma PlacesFrom(s: Packet, p: nat, ps: seq<nat>)
    requires ps != []
    ensures Places(s, [p] + ps) <==> Couple(s, p, ps[0]) && Places(s, ps)
  {
    hide Couple;
    var all := [p] + ps;
    if Places(s, all) {
      assert Couple(s, all[0], all[1]);
      forall i, j | 0 <= i && j == i + 1 && j < |ps| ensures Couple(s, ps[i], ps[j]) {
        assert Couple(s, all[i + 1], all[j + 1]);
      }
    }
  }

  /** Skipping n couples ends where there are places for them. */
  lemma {:induction false} SkipAllMeans(s: Packet, offset: nat, n: nat, ps: seq<nat>)
    requires Places(s, ps) && |ps| == n + 1 && ps[0] == offset
    ensures SkipAll(s, offset, n) == Some(ps[n])
    decreases n
  {
    hide Couple, CoupleSize, Places;
    if n > 0 {
      assert ps == [offset] + ps[1..];
      PlacesFrom(s, offset, ps[1..]);
      CoupleIs(s, offset, ps[1]);
      SkipAllMeans(s, ps[1], n - 1, ps[1..]);
    }
  }

  lemma {:induction false} SkipAllPlaces(s: Packet, offset: nat, n: nat) returns (ps: seq<nat>)
    requires SkipAll(s, offset, n).Some?
    ensures Places(s, ps) && |ps| == n + 1 && ps[0] == offset
    decreases n
  {
    hide Couple, CoupleSize;
    if n == 0 {
      ps := [offset];
    } else {
      var next := offset + CoupleSize(Drop(s, offset)).value;
      var rest := SkipAllPlaces(s, next, n - 1);
      CoupleIs(s, offset, next);
      PlacesFrom(s, offset, rest);
      ps := [offset] + rest;
    }
  }

  /** A Map-Request: source EID and ITRs must lie one behind the other, each ending inside the datagram;
      then the AFI of the first record decides. */
  lemma RequestKind(s: Packet, ps: seq<nat>)
    requires Places(s, ps) && |ps| == At(s, 2) % 32 + 3 && ps[0] == 12
    ensures var r := ps[|ps| - 1];
      && (Short(s, r + 2) == AFI_IP ==>
            RequestEid(s)
            == AsIs((At(s, r + 1) + 96) % 256, [0, 0, 0, 0, 0, 0, 0, 0, 0, 0, 255, 255] + Octets(s, r + 4, 4)))
      && (Short(s, r + 2) == AFI_IPV6 ==> RequestEid(s) == AsIs(At(s, r + 1), Octets(s, r + 4, 16)))
      && (Short(s, r + 2) == 0 ==> RequestEid(s) == Undefined(EmptyAfi))
      && (Short(s, r + 2) !in {0, AFI_IP, AFI_IPV6} ==> RequestEid(s) == Undefined(UnknownIp))
  {
    hide SkipAll;
    SkipAllMeans(s, 12, At(s, 2) % 32 + 2, ps);
  }

  lemma RequestMalformed(s: Packet)
    ensures RequestEid(s) == Undefined(Malformed) <==>
      !exists ps :: Places(s, ps) && |ps| == At(s, 2) % 32 + 3 && ps[0] == 12
  {
    hide SkipAll, Places;
    var n := At(s, 2) % 32 + 2;
    if SkipAll(s, 12, n).Some? {
      var ps := SkipAllPlaces(s, 12, n);
    }
    forall ps | Places(s, ps) && |ps| == n + 1 && ps[0] == 12 ensures SkipAll(s, 12, n).Some? {
      SkipAllMeans(s, 12, n, ps);
    }
  }

  // ---------- agreement ----------

  /** The control plane's EID in the hypervisor's terms. */
  function Widened(e: Requests.Record): HvPrefix {
    if e.addr.Ip4? then AsIs(e.len + 96, Mapped(e.addr.octets)) else AsIs(e.len, e.addr.octets)
  }

  /** Where both read the ITRs they end at the same place. */
  lemma {:induction false} SameItrs(s: Packet, offset: nat, n: nat)
    requires Requests.ReadAll(Drop(s, offset), n).Some? && SkipAll(s, offset, n).Some?
    ensures Requests.ReadAll(Drop(s, offset), n).value.1 == Drop(s, SkipAll(s, offset, n).value)
    decreases n
  {
    if n > 0 {
      var a := ReadAddress(Drop(s, offset)).value;
      DropDrop(s, offset, Size(a));
      SameItrs(s, offset + Size(a), n - 1);
    }
  }

  lemma SameSource(s: Packet, offset: nat)
    requires CoupleSize(Drop(s, offset)).Some?
    ensures Requests.SourceSize(Drop(s, offset)) == CoupleSize(Drop(s, offset)).value
  {
  }

  lemma SameRecord(s: Packet, offset: nat)
    requires FirstRecord(s, offset).AsIs?
    ensures Requests.ReadRecord(Drop(s, offset)).Some?
    ensures var e := Requests.ReadRecord(Drop(s, offset)).value.0;
      FirstRecord(s, offset) == Widened(e) <==> e.addr.Ip6? || e.len < 160
  {
    hide At, Octets, Drop, Mapped;
    RecordByPlaces(s, offset);
  }

  /** The control plane's reading of a plain record, by its places in the packet. */
  lemma RecordByPlaces(s: Packet, offset: nat)
    requires Short(s, offset + 2) in {AFI_IP, AFI_IPV6}
    ensures Requests.ReadRecord(Drop(s, offset)).Some?
    ensures Requests.ReadRecord(Drop(s, offset)).value.0 == Requests.Record(At(s, offset + 1),
      if Short(s, offset + 2) == AFI_IP then Ip4(Octets(s, offset + 4, 4)) else Ip6(Octets(s, offset + 4, 16)))
  {
    hide At, Octets, Drop;
    var t := Drop(s, offset);
    DropAt(s, offset, 1);
    DropAt(s, offset, 2);
    DropAt(s, offset, 3);
    DropAt(t, 2, 0);
    DropAt(t, 2, 1);
    DropOctets(t, 2, 2, 4);
    DropOctets(t, 2, 2, 16);
    DropOctets(s, offset, 4, 4);
    DropOctets(s, offset, 4, 16);
  }

  lemma FirstOfRecords(s: Packet, n: nat)
    requires Requests.ReadRecords(s, n).Some? && Requests.ReadRecords(s, n).value != []
    ensures Requests.ReadRecord(s).Some?
    ensures Requests.ReadRecords(s, n).value[0] == Requests.ReadRecord(s).value.0
  {
    hide Requests.ReadRecord;
  }

  /** On a Map-Request that both accept, the hypervisor takes the control plane's first EID,
      as long as the mask length fits. */
  lemma RequestsAgree(s: Packet)
    requires Requests.ReadRequest(s).Some? && Requests.ReadRequest(s).value.1 != []
    requires RequestEid(s).AsIs?
    ensures var e := Requests.ReadRequest(s).value.1[0];
      RequestEid(s) == Widened(e) <==> e.addr.Ip6? || e.len < 160
  {
    hide CoupleSize, FirstRecord, Requests.ReadRecord, Requests.SourceSize, ReadAddress, Requests.ReadAll,
      Requests.ReadRecords, SkipAll, Widened;
    var n := At(s, 2) % 32 + 1;
    SourceFirst(s, n);
    SameSource(s, 12);
    var itrs := 12 + Requests.SourceSize(Drop(s, 12));
    SameItrs(s, itrs, n);
    FirstOfRecords(Drop(s, SkipAll(s, itrs, n).value), At(s, 3));
    SameRecord(s, SkipAll(s, itrs, n).value);
  }

  /** The two parsers agree: on every Map-Request, bare or in one encapsulation with an IPv4
      header without options or an IPv6 header, that both accept, the hypervisor's EID is the
      control plane's first one, exactly when an IPv4 mask length is below 160; a valid one is
      at most 32. */
  lemma ParsersAgree(s: Packet)
    requires Requests.Preparse(s).Some? && Requests.Preparse(s).value.kind == 1
    requires Requests.Preparse(s).value.ecm && At(s, 4) / 16 == 4 ==> At(s, 4) % 16 == 5
    requires var r := Requests.ReadRequest(Drop(s, Requests.Preparse(s).value.start)); r.Some? && r.value.1 != []
    requires MessageEid(s).AsIs?
    ensures var e := Requests.ReadRequest(Drop(s, Requests.Preparse(s).value.start)).value.1[0];
      MessageEid(s) == Widened(e) <==> e.addr.Ip6? || e.len < 160
  {
    hide Requests.ReadRequest, RequestEid, Widened;
    var start := Requests.Preparse(s).value.start;
    var t := Drop(s, start);
    DropAt(s, start, 0);
    if Requests.Preparse(s).value.ecm {
      assert MessageEid(s) == MessageEid(t);
    } else {
      assert t == s;
    }
    RequestsAgree(t);
  }

  // ---------- what the control plane sends ----------

  lemma CoupleBack(front: Packet, a: Address, rest: Packet)
    ensures CoupleSize(Drop(front + (WireAddress(a) + rest), |front|)) == Some(Size(a))
    ensures |WireAddress(a)| == Size(a)
  {
    Behind(front, WireAddress(a) + rest, 0);
    AddressBack(a, rest);
  }

  /** The ITRs of a message are skipped, whatever comes before and behind them. */
  lemma {:induction false} ItrsSkipped(front: Packet, itrs: seq<Address>, rest: Packet)
    requires rest != []
    ensures SkipAll(front + (Requests.WireAll(itrs) + rest), |front|, |itrs|)
      == Some(|front| + |Requests.WireAll(itrs)|)
    decreases |itrs|
  {
    hide CoupleSize, WireAddress;
    if itrs != [] {
      var a, more := WireAddress(itrs[0]), Requests.WireAll(itrs[1..]) + rest;
      var s := front + (Requests.WireAll(itrs) + rest);
      assert s == front + (a + more) == front + a + more;
      CoupleBack(front, itrs[0], more);
      ItrsSkipped(front + a, itrs[1..], rest);
    }
  }

  lemma SourceSkipped(m: Requests.Ask, rest: Packet)
    requires rest != []
    ensures var t := Requests.WireHeader(m) + ([0, 0] + rest);
      && CoupleSize(Drop(t, 12)) == Some(2) && 14 < |t| && At(t, 2) % 32 == Requests.Irc(|m.itrs|)
      && t == (Requests.WireHeader(m) + [0, 0]) + rest
  {
    Requests.HeaderBack(m, [0, 0] + rest);
    hide Requests.WireHeader;
  }

  /** The first record of a message is the one that was asked for. */
  lemma RecordFound(front: Packet, e: Requests.Record)
    ensures FirstRecord(front + Requests.WireRecord(e), |front|) == Widened(e) <==> e.addr.Ip6? || e.len < 160
  {
    var t, r := front + Requests.WireRecord(e), Requests.WireRecord(e);
    assert Drop(t, |front|) == r;
    Requests.RecordBack(e);
    DropAt(t, |front|, 2);
    DropAt(t, |front|, 3);
    assert Short(t, |front| + 2) == Afi(e.addr);
    SameRecord(t, |front|);
  }

  lemma RequestUnderstood(m: Requests.Ask)
    requires 1 <= |m.itrs| <= 32
    ensures RequestEid(Requests.WireRequest(m)) == Widened(m.eid) <==> m.eid.addr.Ip6? || m.eid.len < 160
  {
    hide CoupleSize, SkipAll, FirstRecord, Widened, Requests.WireHeader, Requests.WireAll, Requests.WireRecord;
    var t, front := Requests.WireRequest(m), Requests.WireHeader(m) + [0, 0];
    var itrs, record := Requests.WireAll(m.itrs), Requests.WireRecord(m.eid);
    RecordSize(m.eid);
    SourceSkipped(m, itrs + record);
    SourceFirst(t, |m.itrs|);
    ItrsSkipped(front, m.itrs, record);
    assert t == (front + itrs) + record;
    RecordFound(front + itrs, m.eid);
  }

  lemma RecordSize(e: Requests.Record)
    ensures Requests.WireRecord(e) != []
  {
  }

  /** What the control plane sends, the hypervisor understands: for 1 to 32 ITRs and any EID prefix,
      its EID is the one asked for, exactly when an IPv4 mask length is below 160. */
  lemma PacketUnderstood(m: Requests.Ask, o: Requests.Checksums.Order)
    requires |m.src| == |m.dst| == 16 && 1 <= |m.itrs| <= 32
    ensures MessageEid(Requests.WirePacket(m, o)) == Widened(m.eid) <==> m.eid.addr.Ip6? || m.eid.len < 160
  {
    hide Requests.WirePacket, Requests.WireRequest, RequestEid, Widened;
    var s, start := Requests.WirePacket(m, o), if m.eid.addr.Ip4? then 32 else 52;
    Requests.PacketParts(m, o);
    Requests.NoOptions(m, o);
    DropAt(s, start, 0);
    assert InnerOffset(s) == Some(start);
    assert MessageEid(s) == MessageEid(s[start..]) == RequestEid(Requests.WireRequest(m));
    RequestUnderstood(m);
  }
}
