/** The encapsulated Map-Request of udp.c: how it is written (`udp_request_add`) and how it is
    read (`udp_preparse_pk`, `udp_prc_request`). */
module Requests {
  import opened Types
  import opened Wire
  import Checksums

  // ---------- the message ----------

  /** The flags of a Map-Request (section 6.1.2 of RFC 6830). */
  datatype RequestFlags = RequestFlags(A: bool, M: bool, P: bool, S: bool, p: bool, s: bool)

  /** A record: mask length and prefix. */
  datatype Record = Record(len: Octet, addr: Address)

  /** What `udp_request_add` is given. Source and destination of the inner packet are the 16
      octets of an address field. */
  datatype Ask = Ask(security: bool, ddt: bool, flags: RequestFlags, nonce0: nat, nonce1: nat,
                     src: Packet, dst: Packet, port: nat, eid: Record, itrs: seq<Address>)

  function Bit(b: bool, weight: nat): nat {
    if b then weight else 0
  }

  /** The first word of an Encapsulated Control Message (section 6.1.8 of RFC 6830). */
  function WireEcm(m: Ask): Packet {
    [8 * 16 + Bit(m.security, 8) + Bit(m.ddt, 4), 0, 0, 0]
  }

  /** `irc` counts up from 0 in five bits, and once down. */
  function Irc(n: nat): (r: Octet)
    ensures r < 32
  {
    (n + 31) % 32
  }

  function WireHeader(m: Ask): (r: Packet)
    ensures |r| == 12
  {
    [16 + Bit(m.flags.A, 8) + Bit(m.flags.M, 4) + Bit(m.flags.P, 2) + Bit(m.flags.S, 1),
     Bit(m.flags.p, 128) + Bit(m.flags.s, 64), Irc(|m.itrs|), 1]
    + LongOctets(m.nonce0) + LongOctets(m.nonce1)
  }

  function WireAll(itrs: seq<Address>): Packet {
    if itrs == [] then [] else WireAddress(itrs[0]) + WireAll(itrs[1..])
  }

  function WireRecord(e: Record): Packet {
    [0, e.len] + WireAddress(e.addr)
  }

  /** The Map-Request itself: header, no source EID, the ITRs, one record. */
  function WireRequest(m: Ask): Packet {
    WireHeader(m) + ([0, 0] + (WireAll(m.itrs) + WireRecord(m.eid)))
  }

  function WireUdp(m: Ask, len: nat): (r: Packet)
    ensures |r| == 8
  {
    ShortOctets(m.port) + ShortOctets(4342) + ShortOctets(len) + [0, 0]
  }

  // ---------- reading ----------

  function ReadAll(s: Packet, n: nat): Option<(seq<Address>, Packet)>
    decreases n
  {
    if n == 0 then Some(([], s))
    else match ReadAddress(s)
      case None => None
      case Some(a) =>
        match ReadAll(Drop(s, Size(a)), n - 1)
        case None => None
        case Some(r) => Some(([a] + r.0, r.1))
  }

  /** A record, perhaps behind an instance identifier of 12 octets; and its size. */
  function ReadRecord(s: Packet): Option<(Record, nat)> {
    var skip := if Short(s, 2) == AFI_LCAF then 12 else 0;
    match ReadAddress(Drop(s, skip + 2))
    case None => None
    case Some(a) => Some((Record(At(s, 1), a), skip + 2 + Size(a)))
  }

  function ReadRecords(s: Packet, n: nat): Option<seq<Record>>
    decreases n
  {
    if n == 0 then Some([])
    else match ReadRecord(s)
      case None => None
      case Some(r) =>
        match ReadRecords(Drop(s, r.1), n - 1)
        case None => None
        case Some(es) => Some([r.0] + es)
  }

  /** The source EID: an address, or just an AFI. */
  function SourceSize(s: Packet): nat {
    match ReadAddress(s) case Some(a) => Size(a) case None => 2
  }

  /** What `udp_prc_request` takes from a Map-Request: the ITRs and the EIDs. */
  function ReadRequest(s: Packet): Option<(seq<Address>, seq<Record>)> {
    var itrs := Drop(s, 12 + SourceSize(Drop(s, 12)));
    match ReadAll(itrs, At(s, 2) % 32 + 1)
    case None => None
    case Some(r) =>
      match ReadRecords(r.1, At(s, 3))
      case None => None
      case Some(es) => Some((r.0, es))
  }

  // ---------- round trip ----------

  lemma {:induction false} AllBack(itrs: seq<Address>, rest: Packet)
    ensures ReadAll(WireAll(itrs) + rest, |itrs|) == Some((itrs, rest))
  {
    hide ReadAddress, WireAddress, Size;
    if itrs == [] {
      assert WireAll(itrs) + rest == rest;
    } else {
      var more := WireAll(itrs[1..]) + rest;
      assert WireAll(itrs) + rest == WireAddress(itrs[0]) + more;
      AddressBack(itrs[0], more);
      AllBack(itrs[1..], rest);
      assert [itrs[0]] + itrs[1..] == itrs;
    }
  }

  lemma RecordBack(e: Record)
    ensures ReadRecord(WireRecord(e)) == Some((e, 2 + Size(e.addr)))
  {
    assert [0, e.len] + WireAddress(e.addr) + [] == WireRecord(e);
    AddressBack(e.addr, []);
    Behind([0, e.len], WireAddress(e.addr), 0);
    Behind([0, e.len], WireAddress(e.addr), 1);
    assert WireAddress(e.addr) + [] == WireAddress(e.addr);
    assert Short(WireRecord(e), 2) == Afi(e.addr);
  }

  /** Reading gives as many ITRs as it is told to. */
  lemma {:induction false} ReadAllCount(s: Packet, n: nat)
    ensures ReadAll(s, n).Some? ==> |ReadAll(s, n).value.0| == n
    decreases n
  {
    if n > 0 && ReadAddress(s).Some? {
      ReadAllCount(Drop(s, Size(ReadAddress(s).value)), n - 1);
    }
  }

  lemma HeaderBack(m: Ask, rest: Packet)
    ensures var s := WireHeader(m) + rest;
      At(s, 0) / 16 == 1 && At(s, 2) % 32 == Irc(|m.itrs|) && At(s, 3) == 1 && Drop(s, 12) == rest
  {
    Behind(WireHeader(m), rest, 0);
    Behind(WireHeader(m), rest, 2);
    Behind(WireHeader(m), rest, 3);
  }

  lemma NoSource(rest: Packet)
    ensures SourceSize([0, 0] + rest) == 2 && Drop([0, 0] + rest, 2) == rest
  {
    assert Short([0, 0] + rest, 0) == 0;
    Behind([0, 0], rest, 0);
  }

  /** What was asked is read back exactly when there are 1 to 32 ITRs: beyond, the five bits of
      `irc` wrap. */
  lemma RequestBack(m: Ask)
    ensures ReadRequest(WireRequest(m)) == Some((m.itrs, [m.eid])) <==> 1 <= |m.itrs| <= 32
  {
    hide ReadAddress, WireAddress, Size, ReadRecord, WireRecord, WireHeader, SourceSize, ReadAll;
    var rest := WireAll(m.itrs) + WireRecord(m.eid);
    HeaderBack(m, [0, 0] + rest);
    NoSource(rest);
    DropDrop(WireRequest(m), 12, 2);
    var n := Irc(|m.itrs|) + 1;
    ReadAllCount(rest, n);
    if 1 <= |m.itrs| <= 32 {
      assert n == |m.itrs|;
      AllBack(m.itrs, WireRecord(m.eid));
      OneRecord(m.eid);
    } else {
      assert n != |m.itrs|;
    }
  }

  lemma OneRecord(e: Record)
    ensures ReadRecords(WireRecord(e), 1) == Some([e])
  {
    hide ReadRecord, WireRecord;
    RecordBack(e);
    assert [e] + [] == [e];
  }

  // ---------- any Map-Request ----------

  /** An instance identifier in front of an address: its own AFI, and ten octets that are skipped. */
  type InstanceId = id: Packet | |id| == 12 && id[0] == 0x40 && id[1] == 0x03
    witness [0x40, 0x03, 0, 0, 0, 0, 0, 0, 0, 0, 0, 0]

  /** A record as it may come in. */
  datatype Incoming = Incoming(record: Record, id: Option<InstanceId>)

  function WireIncoming(e: Incoming): Packet {
    [0, e.record.len] + ((if e.id.Some? then e.id.value else []) + WireAddress(e.record.addr))
  }

  function WireIncomings(es: seq<Incoming>): Packet {
    if es == [] then [] else WireIncoming(es[0]) + WireIncomings(es[1..])
  }

  function RecordsOf(es: seq<Incoming>): seq<Record> {
    if es == [] then [] else [es[0].record] + RecordsOf(es[1..])
  }

  function WireSource(source: Option<Address>): Packet {
    if source.Some? then WireAddress(source.value) else [0, 0]
  }

  lemma IncomingBack(e: Incoming, rest: Packet)
    ensures var s := WireIncoming(e) + rest;
      ReadRecord(s).Some? && ReadRecord(s).value.0 == e.record && Drop(s, ReadRecord(s).value.1) == rest
  {
    hide ReadAddress, WireAddress, Size;
    var id, a := if e.id.Some? then e.id.value else [], WireAddress(e.record.addr);
    var s := WireIncoming(e) + rest;
    AddressBack(e.record.addr, rest);
    AfiBack(e.record.addr, rest);
    assert s == [0, e.record.len] + (id + (a + rest)) == ([0, e.record.len] + id) + (a + rest);
    Behind([0, e.record.len], id + (a + rest), 0);
    Behind([0, e.record.len], id + (a + rest), 1);
    Behind([0, e.record.len] + id, a + rest, 0);
    DropDrop(s, 2 + |id|, Size(e.record.addr));
    if e.id.Some? {
      Behind(id, a + rest, 0);
      Behind(id, a + rest, 1);
    } else {
      assert id + (a + rest) == a + rest;
    }
  }

  lemma AfiBack(a: Address, rest: Packet)
    ensures At(WireAddress(a) + rest, 0) == 0 && At(WireAddress(a) + rest, 1) in {1, 2}
  {
    Behind([0, Afi(a)], a.octets + rest, 0);
    assert WireAddress(a) + rest == [0, Afi(a)] + (a.octets + rest);
  }

  lemma {:induction false} IncomingsBack(es: seq<Incoming>)
    ensures ReadRecords(WireIncomings(es), |es|) == Some(RecordsOf(es))
  {
    hide ReadRecord, WireIncoming;
    if es != [] {
      IncomingBack(es[0], WireIncomings(es[1..]));
      IncomingsBack(es[1..]);
    }
  }

  lemma SourceBack(source: Option<Address>, rest: Packet)
    ensures SourceSize(WireSource(source) + rest) == |WireSource(source)|
  {
    hide ReadAddress, WireAddress, Size;
    if source.Some? {
      AddressBack(source.value, rest);
    } else {
      SourceNone(rest);
    }
  }

  lemma SourceNone(rest: Packet)
    ensures SourceSize([0, 0] + rest) == 2
  {
    NoSource(rest);
  }

  /** Every well-formed Map-Request is read as it was meant: with or without a source EID, with 1 to 32 ITRs
      and any number of records, in front of whose addresses instance identifiers may stand. */
  lemma AnyRequestBack(h: Packet, source: Option<Address>, itrs: seq<Address>, es: seq<Incoming>)
    requires |h| == 12 && 1 <= |itrs| <= 32 && h[2] % 32 == |itrs| - 1 && h[3] == |es|
    ensures ReadRequest(h + (WireSource(source) + (WireAll(itrs) + WireIncomings(es)))) == Some((itrs, RecordsOf(es)))
  {
    hide WireSource, WireAll, WireIncomings, SourceSize, ReadAll, ReadRecords, RecordsOf, ReadRequest;
    var rest := WireAll(itrs) + WireIncomings(es);
    var source' := WireSource(source);
    var s := h + (source' + rest);
    Behind(h, source' + rest, 2);
    Behind(h, source' + rest, 3);
    SourceBack(source, rest);
    Behind(source', rest, 0);
    DropDrop(s, 12, |source'|);
    AllBack(itrs, WireIncomings(es));
    IncomingsBack(es);
    ReadsAs(s, rest, itrs, WireIncomings(es), RecordsOf(es));
  }

  lemma ReadsAs(s: Packet, t: Packet, itrs: seq<Address>, rest: Packet, es: seq<Record>)
    requires Drop(s, 12 + SourceSize(Drop(s, 12))) == t && ReadAll(t, At(s, 2) % 32 + 1) == Some((itrs, rest))
    requires ReadRecords(rest, At(s, 3)) == Some(es)
    ensures ReadRequest(s) == Some((itrs, es))
  {
    hide ReadAll, ReadRecords, SourceSize;
  }

  // ---------- the whole packet ----------

  /** Two octets as the machine reads them. */
  function HostWord(a: int, b: int, o: Checksums.Order): Checksums.Word16
    requires 0 <= a < 256 && 0 <= b < 256
  {
    if o == Checksums.Little then a + 256 * b else 256 * a + b
  }

  function HostWords(b: Packet, o: Checksums.Order): (w: seq<Checksums.Word16>)
    requires |b| % 2 == 0
    ensures |w| == |b| / 2
  {
    seq(|b| / 2, i requires 0 <= i < |b| / 2 => HostWord(b[2 * i], b[2 * i + 1], o))
  }

  /** The TTL is the first octet of its word. */
  lemma TtlIsFirstOctet(a: Octet, b: Octet, o: Checksums.Order, ttl: Octet)
    ensures Checksums.TtlOf(HostWord(a, b, o), o) == a
    ensures Checksums.WithTtl(HostWord(a, b, o), o, ttl) == HostWord(ttl, b, o)
  {
    TwoOctets(a, b);
    TwoOctets(b, a);
  }

  lemma TwoOctets(high: Octet, low: Octet)
    ensures (256 * high + low) / 256 == high && (256 * high + low) % 256 == low
  {
  }

  function Ip4Blank(m: Ask, len: nat): (r: Packet)
    requires |m.src| == |m.dst| == 16
    ensures |r| == 20
  {
    [0x45, 0] + ShortOctets(len) + [0, 0, 0, 0, 255, 17, 0, 0] + m.src[..4] + m.dst[..4]
  }

  /** The checksum is computed on the words as the machine reads them, and goes through `htons`
      once more: its high octet always comes first. */
  function WireIp4(m: Ask, len: nat, o: Checksums.Order): (r: Packet)
    requires |m.src| == |m.dst| == 16
    ensures |r| == 20
  {
    var b := Ip4Blank(m, len);
    var sum := 65535 - Checksums.OnesSum(HostWords(b, o));
    b[..10] + ShortOctets(sum) + b[12..]
  }

  function WireIp6(m: Ask, len: nat): (r: Packet)
    requires |m.src| == |m.dst| == 16
    ensures |r| == 40
  {
    [0x6e, 0, 0, 0] + ShortOctets(len) + [17, 64] + m.src + m.dst
  }

  /** The inner IP header has the family of the EID. */
  function WireIp(m: Ask, len: nat, o: Checksums.Order): (r: Packet)
    requires |m.src| == |m.dst| == 16
    ensures |r| == if m.eid.addr.Ip4? then 20 else 40
  {
    if m.eid.addr.Ip4? then WireIp4(m, len + 28, o) else WireIp6(m, len + 8)
  }

  /** The packet `udp_request_add` makes. */
  function WirePacket(m: Ask, o: Checksums.Order): Packet
    requires |m.src| == |m.dst| == 16
  {
    var r := WireRequest(m);
    WireEcm(m) + (WireIp(m, |r|, o) + (WireUdp(m, |r| + 8) + r))
  }

  /** What `udp_preparse_pk` finds out: where the control message starts, its type and nonce, and
      the D bit of the encapsulation. */
  datatype Found = Found(ecm: bool, ddt: bool, start: nat, kind: nat, nonce0: nat, nonce1: nat)

  /** `udp_preparse_pk`. */
  function Preparse(s: Packet): Option<Found> {
    if |s| < 4 then None
    else if s[0] / 16 == 8 then
      if 4 + 20 + 8 > |s| then None
      else
        var version := At(s, 4) / 16;
        if version == 4 then Message(s, true, s[0] / 4 % 2 == 1, 32)
        else if version == 6 then Message(s, true, s[0] / 4 % 2 == 1, 52)
        else None
    else Message(s, false, false, 0)
  }

  function Message(s: Packet, ecm: bool, ddt: bool, start: nat): Option<Found> {
    var kind := At(s, start) / 16;
    if start + 4 + 8 > |s| then None
    else if kind == 1 || kind == 2 || kind == 3 || kind == 4 || kind == 6 then
      Some(Found(ecm, ddt, start, kind, Long(s, start + 4), Long(s, start + 8)))
    else None
  }

  /** Which packets are accepted, by their octets: a control message of one of five types that holds a nonce,
      bare, or behind an encapsulation with an IPv4 or an IPv6 header and a UDP header. */
  lemma PreparseMeans(s: Packet)
    ensures Preparse(s).Some? <==>
      |s| >= 4
      && (if s[0] / 16 != 8 then |s| >= 12 && s[0] / 16 in {1, 2, 3, 4, 6}
          else |s| >= 32 && ((At(s, 4) / 16 == 4 && |s| >= 44 && At(s, 32) / 16 in {1, 2, 3, 4, 6})
                             || (At(s, 4) / 16 == 6 && |s| >= 64 && At(s, 52) / 16 in {1, 2, 3, 4, 6})))
  {
  }

  lemma NonceBack(m: Ask, rest: Packet)
    requires m.nonce0 < 0x1_0000_0000 && m.nonce1 < 0x1_0000_0000
    ensures var s := WireHeader(m) + rest; Long(s, 4) == m.nonce0 && Long(s, 8) == m.nonce1
  {
    LongBack(m.nonce0);
    LongBack(m.nonce1);
    var h := WireHeader(m);
    forall i | 0 <= i < 12 ensures At(h + rest, i) == h[i] {
      Behind(h, rest, i);
    }
    hide LongOctets;
  }

  lemma LongBehind(a: Packet, b: Packet, i: nat)
    ensures Long(a + b, |a| + i) == Long(b, i)
  {
    Behind(a, b, i);
    Behind(a, b, i + 1);
    Behind(a, b, i + 2);
    Behind(a, b, i + 3);
  }

  function Front(m: Ask, o: Checksums.Order): (f: Packet)
    requires |m.src| == |m.dst| == 16
    ensures |f| == if m.eid.addr.Ip4? then 32 else 52
  {
    var r := WireRequest(m);
    WireEcm(m) + WireIp(m, |r|, o) + WireUdp(m, |r| + 8)
  }

  lemma PacketIsFront(m: Ask, o: Checksums.Order)
    requires |m.src| == |m.dst| == 16
    ensures WirePacket(m, o) == Front(m, o) + WireRequest(m)
  {
    hide WireEcm, WireIp, WireUdp, WireRequest;
  }

  lemma FrontOctets(m: Ask, o: Checksums.Order)
    requires |m.src| == |m.dst| == 16
    ensures var f := Front(m, o);
      && f[0] / 16 == 8 && (f[0] / 4 % 2 == 1 <==> m.ddt)
      && f[4] / 16 == (if m.eid.addr.Ip4? then 4 else 6)
  {
    hide WireIp, WireUdp, WireRequest, WireEcm;
    var len := |WireRequest(m)|;
    FirstOctet(m, len, o);
    EcmOctet(m);
    assert Front(m, o)[0] == WireEcm(m)[0] && Front(m, o)[4] == WireIp(m, len, o)[0];
  }

  lemma EcmOctet(m: Ask)
    ensures |WireEcm(m)| == 4 && WireEcm(m)[0] / 16 == 8 && (WireEcm(m)[0] / 4 % 2 == 1 <==> m.ddt)
  {
  }

  lemma PacketParts(m: Ask, o: Checksums.Order)
    requires |m.src| == |m.dst| == 16
    ensures var s, start := WirePacket(m, o), if m.eid.addr.Ip4? then 32 else 52;
      && Drop(s, start) == WireRequest(m) && At(s, start) / 16 == 1
      && |s| == start + |WireRequest(m)| && |WireRequest(m)| >= 12
      && At(s, 0) / 16 == 8 && (At(s, 0) / 4 % 2 == 1 <==> m.ddt)
      && At(s, 4) / 16 == (if m.eid.addr.Ip4? then 4 else 6)
  {
    hide Front, WirePacket;
    PacketIsFront(m, o);
    FrontOctets(m, o);
    Behind(Front(m, o), WireRequest(m), 0);
    Behind(Front(m, o), WireRequest(m), 4);
    HeaderBack(m, [0, 0] + (WireAll(m.itrs) + WireRecord(m.eid)));
    hide WireHeader, WireAll, WireRecord;
  }

  lemma FirstOctet(m: Ask, len: nat, o: Checksums.Order)
    requires |m.src| == |m.dst| == 16
    ensures WireIp(m, len, o)[0] / 16 == if m.eid.addr.Ip4? then 4 else 6
  {
  }

  /** The inner IPv4 header has no options. */
  lemma NoOptions(m: Ask, o: Checksums.Order)
    requires |m.src| == |m.dst| == 16
    ensures m.eid.addr.Ip4? ==> At(WirePacket(m, o), 4) == 0x45
  {
    hide Checksums.OnesSum, WireRequest, WireUdp;
  }

  /** What stands between the encapsulation and the message: fields of the inner IP and UDP headers. */
  datatype InnerHeaders = InnerHeaders(first: nat, second: nat, protocol: nat, hops: nat, length: nat, src: Packet,
                                       dst: Packet, sport: nat, dport: nat, udpLength: nat, udpSum: nat)

  /** The headers by the places of their fields (RFC 791, RFC 8200 and RFC 768). */
  function ReadHeaders(s: Packet): InnerHeaders {
    if At(s, 4) / 16 == 4 then
      InnerHeaders(Short(s, 4), Long(s, 8), At(s, 13), At(s, 12), Short(s, 6), Octets(s, 16, 4), Octets(s, 20, 4),
                   Short(s, 24), Short(s, 26), Short(s, 28), Short(s, 30))
    else
      InnerHeaders(Short(s, 4), Short(s, 6), At(s, 10), At(s, 11), Short(s, 8), Octets(s, 12, 16), Octets(s, 28, 16),
                   Short(s, 44), Short(s, 46), Short(s, 48), Short(s, 50))
  }

  /** The flags of a Map-Request, bit by bit. */
  function ReadFlags(s: Packet, start: nat): RequestFlags {
    RequestFlags(At(s, start) / 8 % 2 == 1, At(s, start) / 4 % 2 == 1, At(s, start) / 2 % 2 == 1, At(s, start) % 2 == 1,
                 At(s, start + 1) / 128 == 1, At(s, start + 1) / 64 % 2 == 1)
  }

  lemma ShortBack(n: nat)
    ensures Short(ShortOctets(n), 0) == n % 65536
  {
    var q, r := n / 65536, n % 65536;
    assert n / 256 == 256 * q + r / 256;
    assert n % 256 == r % 256 && r / 256 < 256;
  }

  /** The inner IP header alone. */
  lemma IpOctets(m: Ask, len: nat, o: Checksums.Order)
    requires |m.src| == |m.dst| == 16
    ensures var h := WireIp(m, len, o);
      if m.eid.addr.Ip4? then
        && h[0..2] == [0x45, 0] && h[2..4] == ShortOctets(len + 28) && h[4..8] == [0, 0, 0, 0]
        && h[8] == 255 && h[9] == 17
        && h[12..16] == m.src[..4] && h[16..20] == m.dst[..4]
      else
        && h[0..4] == [0x6e, 0, 0, 0] && h[4..6] == ShortOctets(len + 8) && h[6] == 17 && h[7] == 64
        && h[8..24] == m.src && h[24..40] == m.dst
  {
    hide Checksums.OnesSum, ShortOctets, Ip4Blank;
    if m.eid.addr.Ip4? {
      var b, h := Ip4Blank(m, len + 28), WireIp(m, len, o);
      BlankFields(m, len + 28);
      PartKept(b, h, 0, 2);
      PartKept(b, h, 2, 4);
      PartKept(b, h, 4, 8);
      PartKept(b, h, 8, 10);
      PartKept(b, h, 12, 16);
      PartKept(b, h, 16, 20);
    } else {
      Ip6Fields(m, len + 8);
    }
  }

  /** The checksum goes between octets 10 and 12. */
  lemma PartKept(b: Packet, h: Packet, i: nat, j: nat)
    requires |b| == |h| == 20 && h[..10] == b[..10] && h[12..] == b[12..] && i < j <= 20 && (j <= 10 || 12 <= i)
    ensures h[i..j] == b[i..j] && h[i] == b[i] && h[j - 1] == b[j - 1]
  {
    forall k | 0 <= k < 20 && (k < 10 || 12 <= k) ensures h[k] == b[k] {
      if k < 10 {
        assert h[k] == h[..10][k] && b[k] == b[..10][k];
      } else {
        assert h[k] == h[12..][k - 12] && b[k] == b[12..][k - 12];
      }
    }
  }

  lemma BlankFields(m: Ask, len: nat)
    requires |m.src| == |m.dst| == 16
    ensures var b := Ip4Blank(m, len);
      && b[0..2] == [0x45, 0] && b[4..8] == [0, 0, 0, 0] && b[8] == 255 && b[9] == 17 && b[2..4] == ShortOctets(len)
      && b[12..16] == m.src[..4] && b[16..20] == m.dst[..4]
  {
    hide ShortOctets;
  }

  lemma Ip6Fields(m: Ask, len: nat)
    requires |m.src| == |m.dst| == 16
    ensures var h := WireIp6(m, len);
      && h[0..4] == [0x6e, 0, 0, 0] && h[4..6] == ShortOctets(len) && h[6] == 17 && h[7] == 64
      && h[8..24] == m.src && h[24..40] == m.dst
  {
    hide ShortOctets;
  }

  lemma UdpOctets(m: Ask, len: nat)
    ensures var h := WireUdp(m, len);
      h[0..2] == ShortOctets(m.port) && h[2..4] == ShortOctets(4342) && h[4..6] == ShortOctets(len) && h[6..8] == [0, 0]
  {
    hide ShortOctets;
  }

  /** A part of a packet stands where it was put. */
  lemma PartAt(a: Packet, b: Packet, c: Packet, s: Packet, i: nat, j: nat)
    requires s == a + (b + c) && i <= j <= |b|
    ensures Octets(s, |a| + i, j - i) == b[i..j]
    ensures i < j ==> At(s, |a| + i) == b[i]
    ensures j == i + 2 ==> Short(s, |a| + i) == Short(b[i..j], 0)
  {
    forall k | i <= k < j ensures At(s, |a| + k) == b[k] {
      Behind(a, b + c, k);
    }
  }

  lemma HeadersBack(m: Ask, o: Checksums.Order)
    requires |m.src| == |m.dst| == 16
    ensures var s := WirePacket(m, o);
      ReadHeaders(s) ==
        if m.eid.addr.Ip4? then
          InnerHeaders(0x4500, 0, 17, 255, (|s| - 4) % 65536, m.src[..4], m.dst[..4], m.port % 65536, 4342,
                       (|s| - 24) % 65536, 0)
        else
          InnerHeaders(0x6e00, 0, 17, 64, (|s| - 44) % 65536, m.src, m.dst, m.port % 65536, 4342, (|s| - 44) % 65536, 0)
  {
    hide WireEcm, WireIp, WireUdp, WireRequest, Short, ShortOctets, At, Octets, Long;
    var s, r := WirePacket(m, o), WireRequest(m);
    var ecm, ip, udp := WireEcm(m), WireIp(m, |r|, o), WireUdp(m, |r| + 8);
    EcmOctet(m);
    PacketParts(m, o);
    assert s == ecm + (ip + (udp + r)) == (ecm + ip) + (udp + r);
    IpOctets(m, |r|, o);
    UdpOctets(m, |r| + 8);
    ShortBack(|r| + 28);
    ShortBack(|r| + 8);
    ShortBack(m.port);
    ShortBack(4342);
    KnownShorts();
    PartAt(ecm + ip, udp, r, s, 0, 2);
    PartAt(ecm + ip, udp, r, s, 2, 4);
    PartAt(ecm + ip, udp, r, s, 4, 6);
    PartAt(ecm + ip, udp, r, s, 6, 8);
    var rest := udp + r;
    PartAt(ecm, ip, rest, s, 0, 2);
    if m.eid.addr.Ip4? {
      PartAt(ecm, ip, rest, s, 4, 8);
      OctetsLong(s, 8);
      PartAt(ecm, ip, rest, s, 2, 4);
      PartAt(ecm, ip, rest, s, 8, 9);
      PartAt(ecm, ip, rest, s, 9, 10);
      PartAt(ecm, ip, rest, s, 12, 16);
      PartAt(ecm, ip, rest, s, 16, 20);
    } else {
      assert ip[0..2] == ip[0..4][0..2] == [0x6e, 0] && ip[2..4] == ip[0..4][2..4] == [0, 0];
      PartAt(ecm, ip, rest, s, 2, 4);
      PartAt(ecm, ip, rest, s, 4, 6);
      PartAt(ecm, ip, rest, s, 6, 7);
      PartAt(ecm, ip, rest, s, 7, 8);
      PartAt(ecm, ip, rest, s, 8, 24);
      PartAt(ecm, ip, rest, s, 24, 40);
    }
  }

  lemma OctetsLong(s: Packet, i: nat)
    requires Octets(s, i, 4) == [0, 0, 0, 0]
    ensures Long(s, i) == 0
  {
    assert forall k | 0 <= k < 4 :: Octets(s, i, 4)[k] == 0;
    assert Octets(s, i, 4)[0] == At(s, i) && Octets(s, i, 4)[1] == At(s, i + 1);
    assert Octets(s, i, 4)[2] == At(s, i + 2) && Octets(s, i, 4)[3] == At(s, i + 3);
  }

  lemma KnownShorts()
    ensures Short([0, 0], 0) == 0 && Short([0x45, 0], 0) == 0x4500 && Short([0x6e, 0], 0) == 0x6e00
  {
  }

  lemma FlagsBack(m: Ask, rest: Packet)
    ensures ReadFlags(WireHeader(m) + rest, 0) == m.flags
  {
    Behind(WireHeader(m), rest, 0);
    Behind(WireHeader(m), rest, 1);
    hide LongOctets;
  }

  lemma SecurityBack(m: Ask)
    ensures WireEcm(m)[0] / 8 % 2 == 1 <==> m.security
    ensures WireEcm(m)[0] % 4 == 0 && WireEcm(m)[1..4] == [0, 0, 0]
  {
  }

  lemma EcmBack(m: Ask, o: Checksums.Order)
    requires |m.src| == |m.dst| == 16
    ensures var s := WirePacket(m, o);
      (At(s, 0) / 8 % 2 == 1 <==> m.security) && At(s, 0) % 4 == 0 && Octets(s, 1, 3) == [0, 0, 0]
  {
    hide WireEcm, WireIp, WireUdp, WireRequest, WirePacket, Octets, At;
    var s := WirePacket(m, o);
    EcmOctet(m);
    SecurityBack(m);
    PacketWhole(m, o);
    var rest := WireIp(m, |WireRequest(m)|, o) + (WireUdp(m, |WireRequest(m)| + 8) + WireRequest(m));
    Behind(WireEcm(m), rest, 0);
    assert [] + (WireEcm(m) + rest) == s;
    PartAt([], WireEcm(m), rest, s, 1, 4);
  }

  lemma BitsBack(m: Ask, o: Checksums.Order)
    requires |m.src| == |m.dst| == 16
    ensures ReadFlags(WirePacket(m, o), if m.eid.addr.Ip4? then 32 else 52) == m.flags
  {
    hide WireEcm, WireIp, WireUdp, WireHeader, WireAll, WireRecord, WirePacket;
    var s, start := WirePacket(m, o), if m.eid.addr.Ip4? then 32 else 52;
    PacketParts(m, o);
    FlagsBack(m, [0, 0] + (WireAll(m.itrs) + WireRecord(m.eid)));
    DropAt(s, start, 0);
    DropAt(s, start, 1);
  }

  /** Round trip: for 1 to 32 ITRs in any mix and any EID prefix, parsing the packet recovers the
      nonce, the D bit, the ITRs in order, and the EID; for no other number of ITRs. In between stand
      IP and UDP headers with the addresses and the port that were given, from there to the LISP
      control port, and with the lengths of what follows; and all flags are those that were given. */
  lemma PacketBack(m: Ask, o: Checksums.Order)
    requires |m.src| == |m.dst| == 16 && m.nonce0 < 0x1_0000_0000 && m.nonce1 < 0x1_0000_0000
    ensures var s, start := WirePacket(m, o), if m.eid.addr.Ip4? then 32 else 52;
      && Preparse(s) == Some(Found(true, m.ddt, start, 1, m.nonce0, m.nonce1))
      && (ReadRequest(Drop(s, start)) == Some((m.itrs, [m.eid])) <==> 1 <= |m.itrs| <= 32)
      && ReadFlags(s, start) == m.flags && (At(s, 0) / 8 % 2 == 1 <==> m.security)
      && At(s, 0) % 4 == 0 && Octets(s, 1, 3) == [0, 0, 0]
      && ReadHeaders(s) ==
        if m.eid.addr.Ip4? then
          InnerHeaders(0x4500, 0, 17, 255, (|s| - 4) % 65536, m.src[..4], m.dst[..4], m.port % 65536, 4342,
                       (|s| - 24) % 65536, 0)
        else
          InnerHeaders(0x6e00, 0, 17, 64, (|s| - 44) % 65536, m.src, m.dst, m.port % 65536, 4342, (|s| - 44) % 65536, 0)
  {
    hide WirePacket, WireRequest, ReadRequest, Long, ReadFlags, ReadHeaders, Octets;
    HeadersBack(m, o);
    BitsBack(m, o);
    EcmBack(m, o);
    var s, start := WirePacket(m, o), if m.eid.addr.Ip4? then 32 else 52;
    PacketParts(m, o);
    RequestBack(m);
    PacketNonce(m, s, start);
  }

  lemma PacketNonce(m: Ask, s: Packet, start: nat)
    requires Drop(s, start) == WireRequest(m) && start <= |s|
    requires m.nonce0 < 0x1_0000_0000 && m.nonce1 < 0x1_0000_0000
    ensures Long(s, start + 4) == m.nonce0 && Long(s, start + 8) == m.nonce1
  {
    hide Long, WireHeader;
    NonceBack(m, [0, 0] + (WireAll(m.itrs) + WireRecord(m.eid)));
    assert s == s[..start] + WireRequest(m);
    LongBehind(s[..start], WireRequest(m), 4);
    LongBehind(s[..start], WireRequest(m), 8);
  }

  // ---------- the code: reading ----------

  function Before(found: seq<Address>, r: Option<(seq<Address>, Packet)>): Option<(seq<Address>, Packet)> {
    match r case None => None case Some(x) => Some((found + x.0, x.1))
  }

  lemma ItrStep(found: seq<Address>, s: Packet, n: nat)
    requires n > 0
    ensures Before(found, ReadAll(s, n)) ==
      match ReadAddress(s)
      case None => None
      case Some(a) => Before(found + [a], ReadAll(Drop(s, Size(a)), n - 1))
  {
    hide ReadAddress, Size;
    if ReadAddress(s).Some? {
      var a := ReadAddress(s).value;
      var r := ReadAll(Drop(s, Size(a)), n - 1);
      if r.Some? {
        assert found + ([a] + r.value.0) == found + [a] + r.value.0;
      }
    }
  }

  lemma ItrEnds(found: seq<Address>, s: Packet)
    ensures Before(found, ReadAll(s, 0)) == Some((found, s))
  {
    assert found + [] == found;
  }

  lemma BeforeNone(r: Option<(seq<Address>, Packet)>)
    ensures Before([], r) == r
  {
    if r.Some? {
      assert [] + r.value.0 == r.value.0;
    }
  }

  /** The ITR loop of `udp_prc_request`: the cursor advances address by address. */
  method ItrLoop(s: Packet, start: nat, n: nat) returns (itrs: Option<seq<Address>>, cursor: nat)
    ensures match ReadAll(Drop(s, start), n)
      case None => itrs == None
      case Some(r) => itrs == Some(r.0) && Drop(s, cursor) == r.1
  {
    hide ReadAddress, Size, ReadAll, Before;
    var found: seq<Address> := [];
    var icount := n;
    cursor := start;
    BeforeNone(ReadAll(Drop(s, start), n));
    while icount > 0
      invariant 0 <= icount <= n
      invariant Before(found, ReadAll(Drop(s, cursor), icount)) == ReadAll(Drop(s, start), n)
    {
      ItrStep(found, Drop(s, cursor), icount);
      var a := ReadAddress(Drop(s, cursor));
      if a == None {
        return None, cursor;
      }
      DropDrop(s, cursor, Size(a.value));
      found := found + [a.value];
      cursor := cursor + Size(a.value);
      icount := icount - 1;
    }
    ItrEnds(found, Drop(s, cursor));
    itrs := Some(found);
  }

  function Joined(found: seq<Record>, r: Option<seq<Record>>): Option<seq<Record>> {
    match r case None => None case Some(x) => Some(found + x)
  }

  lemma RecordStep(found: seq<Record>, s: Packet, n: nat)
    requires n > 0
    ensures Joined(found, ReadRecords(s, n)) ==
      match ReadRecord(s)
      case None => None
      case Some(e) => Joined(found + [e.0], ReadRecords(Drop(s, e.1), n - 1))
  {
    hide ReadRecord;
    if ReadRecord(s).Some? {
      var e := ReadRecord(s).value;
      var r := ReadRecords(Drop(s, e.1), n - 1);
      if r.Some? {
        assert found + ([e.0] + r.value) == found + [e.0] + r.value;
      }
    }
  }

  /** The record loop of `udp_prc_request`. */
  method RecordLoop(s: Packet, start: nat, n: nat) returns (eids: Option<seq<Record>>)
    ensures eids == ReadRecords(Drop(s, start), n)
  {
    hide ReadRecord;
    var found: seq<Record> := [];
    var cursor, rcount := start, n;
    assert forall x: seq<Record> :: [] + x == x;
    while rcount > 0
      invariant 0 <= rcount <= n
      invariant Joined(found, ReadRecords(Drop(s, cursor), rcount)) == ReadRecords(Drop(s, start), n)
    {
      RecordStep(found, Drop(s, cursor), rcount);
      var e := ReadRecord(Drop(s, cursor));
      if e == None {
        return None;
      }
      DropDrop(s, cursor, e.value.1);
      found := found + [e.value.0];
      cursor := cursor + e.value.1;
      rcount := rcount - 1;
    }
    assert found + [] == found;
    eids := Some(found);
  }

  /** The parts of a message by their places in the packet. */
  lemma RequestParts(s: Packet, lcm: nat)
    ensures ReadRequest(Drop(s, lcm)) ==
      match ReadAll(Drop(s, lcm + 12 + SourceSize(Drop(s, lcm + 12))), At(s, lcm + 2) % 32 + 1)
      case None => None
      case Some(r) =>
        match ReadRecords(r.1, At(s, lcm + 3))
        case None => None
        case Some(es) => Some((r.0, es))
  {
    hide ReadAll, ReadRecords, SourceSize;
    DropAt(s, lcm, 2);
    DropAt(s, lcm, 3);
    DropDrop(s, lcm, 12);
    DropDrop(s, lcm, 12 + SourceSize(Drop(s, lcm + 12)));
  }

  /** `udp_prc_request` on the message that starts at `lcm`. */
  method PrcRequest(s: Packet, lcm: nat) returns (r: Option<(seq<Address>, seq<Record>)>)
    ensures r == ReadRequest(Drop(s, lcm))
  {
    hide ReadAll, ReadRecords, SourceSize, ReadRequest;
    RequestParts(s, lcm);
    var source := lcm + 12;
    var itr := source + SourceSize(Drop(s, source));
    var icount := At(s, lcm + 2) % 32 + 1;
    var itrs, cursor := ItrLoop(s, itr, icount);
    if itrs == None {
      return None;
    }
    var eids := RecordLoop(s, cursor, At(s, lcm + 3));
    if eids == None {
      return None;
    }
    r := Some((itrs.value, eids.value));
  }

  // ---------- the code: writing ----------

  method Put(buf: array<Octet>, at: nat, bytes: Packet)
    requires at + |bytes| <= buf.Length
    modifies buf
    ensures buf[at..at + |bytes|] == bytes
    ensures buf[..at] == old(buf[..at]) && buf[at + |bytes|..] == old(buf[at + |bytes|..])
  {
    for i := 0 to |bytes|
      invariant buf[at..at + i] == bytes[..i]
      invariant buf[..at] == old(buf[..at]) && buf[at + |bytes|..] == old(buf[at + |bytes|..])
    {
      buf[at + i] := bytes[i];
    }
    assert bytes[..|bytes|] == bytes;
  }

  lemma {:induction false} WireAllAppend(itrs: seq<Address>, a: Address)
    ensures WireAll(itrs + [a]) == WireAll(itrs) + WireAddress(a)
  {
    hide WireAddress;
    if itrs != [] {
      assert (itrs + [a])[1..] == itrs[1..] + [a];
      WireAllAppend(itrs[1..], a);
    } else {
      assert itrs + [a] == [a];
    }
  }

  lemma {:induction false} WireAllSize(itrs: seq<Address>)
    ensures |WireAll(itrs)| <= 18 * |itrs|
  {
    if itrs != [] {
      WireAllSize(itrs[1..]);
    }
  }

  /** The ITR loop of `udp_request_add`: every address behind the last, counted in five bits. */
  method PutItrs(buf: array<Octet>, at: nat, itrs: seq<Address>) returns (cursor: nat, irc: Octet)
    requires at + |WireAll(itrs)| <= buf.Length
    modifies buf
    ensures cursor == at + |WireAll(itrs)| && buf[at..cursor] == WireAll(itrs) && irc == |itrs| % 32
    ensures buf[..at] == old(buf[..at]) && buf[cursor..] == old(buf[cursor..])
  {
    hide WireAddress, WireAll;
    cursor, irc := at, 0;
    WireNone(itrs);
    for i := 0 to |itrs|
      invariant cursor == at + |WireAll(itrs[..i])| <= buf.Length && irc == i % 32
      invariant buf[at..cursor] == WireAll(itrs[..i])
      invariant buf[..at] == old(buf[..at]) && buf[cursor..] == old(buf[..])[cursor..]
    {
      assert itrs[..i + 1] == itrs[..i] + [itrs[i]];
      WireAllAppend(itrs[..i], itrs[i]);
      WireAllPrefix(itrs, i + 1);
      ghost var was, first, size := buf[..], cursor, |WireAddress(itrs[i])|;
      cursor := PutNext(buf, at, cursor, WireAddress(itrs[i]));
      TailsAgree(was, old(buf[..]), first, size);
      assert buf[cursor..] == was[cursor..];
      irc := (irc + 1) % 32;
    }
    assert itrs[..|itrs|] == itrs;
  }

  lemma TailsAgree(a: Packet, b: Packet, i: nat, n: nat)
    requires i + n <= |a| == |b| && a[i..] == b[i..]
    ensures a[i + n..] == b[i + n..]
  {
    assert a[i + n..] == a[i..][n..] && b[i + n..] == b[i..][n..];
  }

  lemma WireNone(itrs: seq<Address>)
    ensures WireAll(itrs[..0]) == []
  {
  }

  /** One more address behind what is there. */
  method PutNext(buf: array<Octet>, at: nat, cursor: nat, a: Packet) returns (next: nat)
    requires at <= cursor && cursor + |a| <= buf.Length
    modifies buf
    ensures next == cursor + |a| && buf[at..next] == old(buf[at..cursor]) + a
    ensures buf[..at] == old(buf[..at]) && buf[next..] == old(buf[next..])
  {
    Put(buf, cursor, a);
    next := cursor + |a|;
    assert buf[at..cursor] == buf[..cursor][at..];
    assert buf[..at] == buf[..cursor][..at];
    assert buf[at..next] == buf[at..cursor] + buf[cursor..next];
  }

  lemma {:induction false} WireAllPrefix(itrs: seq<Address>, i: nat)
    requires i <= |itrs|
    ensures |WireAll(itrs[..i])| <= |WireAll(itrs)|
  {
    hide WireAddress;
    if i > 0 {
      assert itrs[..i][1..] == itrs[1..][..i - 1];
      WireAllPrefix(itrs[1..], i - 1);
    }
  }

  /** The inner part of `udp_request_add`, from the Map-Request header on. */
  method PutRequest(buf: array<Octet>, at: nat, m: Ask) returns (cursor: nat)
    requires at + |WireRequest(m)| <= buf.Length
    modifies buf
    ensures cursor == at + |WireRequest(m)| && buf[at..cursor] == WireRequest(m)
    ensures buf[..at] == old(buf[..at])
  {
    hide WireAll, WireRecord, WireHeader;
    Put(buf, at + 12, [0, 0]);
    assert buf[..at] == buf[..at + 12][..at];
    var irc;
    cursor, irc := PutItrs(buf, at + 14, m.itrs);
    assert buf[at + 12..at + 14] == buf[..at + 14][at + 12..] == [0, 0];
    irc := (irc + 31) % 32;
    PutTail(buf, at, cursor, m, irc);
    cursor := cursor + |WireRecord(m.eid)|;
  }

  /** The record behind the ITRs, and the header in front. */
  method PutTail(buf: array<Octet>, at: nat, cursor: nat, m: Ask, irc: Octet)
    requires cursor == at + 14 + |WireAll(m.itrs)| && cursor + |WireRecord(m.eid)| <= buf.Length
    requires buf[at + 12..at + 14] == [0, 0] && buf[at + 14..cursor] == WireAll(m.itrs)
    requires irc == Irc(|m.itrs|)
    modifies buf
    ensures buf[at..cursor + |WireRecord(m.eid)|] == WireRequest(m) && buf[..at] == old(buf[..at])
  {
    hide WireAll, WireRecord, WireHeader, HeaderOctets;
    ghost var middle := buf[at + 12..cursor];
    assert middle == [0, 0] + WireAll(m.itrs);
    Put(buf, cursor, WireRecord(m.eid));
    var end := cursor + |WireRecord(m.eid)|;
    assert buf[..at] == buf[..cursor][..at];
    assert buf[at + 12..cursor] == buf[..cursor][at + 12..] == middle;
    assert buf[at + 12..end] == middle + buf[cursor..end];
    PutFront(buf, at, end, HeaderOctets(m, irc));
    assert WireRequest(m) == WireHeader(m) + (middle + WireRecord(m.eid));
  }

  function HeaderOctets(m: Ask, irc: Octet): (h: Packet)
    ensures irc == Irc(|m.itrs|) ==> h == WireHeader(m)
  {
    [16 + Bit(m.flags.A, 8) + Bit(m.flags.M, 4) + Bit(m.flags.P, 2) + Bit(m.flags.S, 1),
     Bit(m.flags.p, 128) + Bit(m.flags.s, 64), irc, 1]
    + LongOctets(m.nonce0) + LongOctets(m.nonce1)
  }

  /** One part of the packet in front of what is already there. */
  method PutFront(buf: array<Octet>, at: nat, end: nat, part: Packet)
    requires at + |part| <= end <= buf.Length
    modifies buf
    ensures buf[at..end] == part + old(buf[at + |part|..end]) && buf[..at] == old(buf[..at])
  {
    Put(buf, at, part);
    assert buf[at + |part|..end] == buf[at + |part|..][..end - at - |part|];
    assert buf[at..end] == buf[at..at + |part|] + buf[at + |part|..end];
  }

  /** The inner IP header, its checksum computed by `ip_checksum`. */
  method IpHeader(m: Ask, len: nat, o: Checksums.Order) returns (h: Packet)
    requires |m.src| == |m.dst| == 16
    ensures h == WireIp(m, len, o)
  {
    if m.eid.addr.Ip4? {
      h := Ip4Blank(m, len + 28);
      var w := HostWords(h, o);
      var sum := Checksums.IpChecksum(w, Checksums.Bits64);
      Checksums.ChecksumsAgree(w, Checksums.Bits64);
      h := h[..10] + ShortOctets(sum) + h[12..];
    } else {
      h := WireIp6(m, len + 8);
    }
  }

  /** `udp_request_add`. */
  method RequestAdd(buf: array<Octet>, m: Ask, o: Checksums.Order) returns (len: nat)
    requires |m.src| == |m.dst| == 16 && |WirePacket(m, o)| <= buf.Length
    modifies buf
    ensures len == |WirePacket(m, o)| && buf[..len] == WirePacket(m, o)
  {
    hide WireRequest, WireIp, WireEcm, WireUdp, WirePacket;
    var udp := if m.eid.addr.Ip4? then 24 else 44;
    PacketIsFront(m, o);
    var curs := PutRequest(buf, udp + 8, m);
    PutFront(buf, udp, curs, WireUdp(m, curs - udp));
    var ip := IpHeader(m, curs - udp - 8, o);
    PutFront(buf, 4, curs, ip);
    PutFront(buf, 0, curs, WireEcm(m));
    len := curs;
    assert buf[..len] == WireEcm(m) + (ip + (WireUdp(m, curs - udp) + WireRequest(m)));
    PacketWhole(m, o);
  }

  lemma PacketWhole(m: Ask, o: Checksums.Order)
    requires |m.src| == |m.dst| == 16
    ensures var r := WireRequest(m);
      WirePacket(m, o) == WireEcm(m) + (WireIp(m, |r|, o) + (WireUdp(m, |r| + 8) + r))
  {
  }

  /** Two octets exchanged stand for the same number only if they are equal. */
  lemma InnerSum(m: Ask, len: nat, o: Checksums.Order)
    requires |m.src| == |m.dst| == 16
    ensures var b := HostWords(Ip4Blank(m, len), o);
      var sum := 65535 - Checksums.OnesSum(b);
      Checksums.ValidHeader(HostWords(WireIp4(m, len, o), o)) <==> o == Checksums.Big || sum / 256 == sum % 256
  {
    hide Checksums.OnesSum, Checksums.Sum, Checksums.Canon;
    var b := HostWords(Ip4Blank(m, len), o);
    var sum := 65535 - Checksums.OnesSum(b);
    var x := HostWord(sum / 256, sum % 256, o);
    var w := HostWords(WireIp4(m, len, o), o);
    HeaderWords(m, len, o);
    Checksums.OnesSumIsCanon(b);
    Checksums.OnesSumIsCanon(w);
    Checksums.SumReplaced(b, 5, x);
    Checksums.SumAtLeast(b, 0);
    Checksums.MinusZero(Checksums.Sum(w));
    SumSplit(Checksums.Sum(b), sum, x);
  }

  lemma HeaderWords(m: Ask, len: nat, o: Checksums.Order)
    requires |m.src| == |m.dst| == 16
    ensures var b := HostWords(Ip4Blank(m, len), o);
      var sum := 65535 - Checksums.OnesSum(b);
      && b[0] > 0 && b[5] == 0
      && HostWords(WireIp4(m, len, o), o) == b[5 := HostWord(sum / 256, sum % 256, o)]
  {
    hide Checksums.OnesSum, Ip4Blank, HostWord, ShortOctets;
    var b := Ip4Blank(m, len);
    var sum := 65535 - Checksums.OnesSum(HostWords(b, o));
    BlankOctets(m, len, o);
    SumOctets(sum);
    SumInPlace(b, WireIp4(m, len, o), ShortOctets(sum), o);
  }

  lemma BlankOctets(m: Ask, len: nat, o: Checksums.Order)
    requires |m.src| == |m.dst| == 16
    ensures HostWord(Ip4Blank(m, len)[0], Ip4Blank(m, len)[1], o) > 0
    ensures HostWord(Ip4Blank(m, len)[10], Ip4Blank(m, len)[11], o) == 0
  {
  }

  lemma SumOctets(sum: nat)
    requires sum < 65536
    ensures ShortOctets(sum)[0] == sum / 256 && ShortOctets(sum)[1] == sum % 256
  {
  }

  lemma SumInPlace(b: Packet, w: Packet, sum: Packet, o: Checksums.Order)
    requires |b| == 20 && |sum| == 2 && w == b[..10] + sum + b[12..]
    ensures HostWords(w, o) == HostWords(b, o)[5 := HostWord(sum[0], sum[1], o)]
  {
    hide HostWord;
    forall i | 0 <= i < 20 ensures w[i] == if i < 10 || i > 11 then b[i] else sum[i - 10] {
    }
  }

  /** A sum s > 0 and the complement of its canonical form add up to minus zero, and no other
      16-bit number below 65535 does it. */
  lemma SumSplit(s: nat, sum: nat, x: nat)
    requires s > 0 && sum == 65535 - Checksums.Canon(s) && x < 65536 && (x == 65535 ==> sum == 65535)
    ensures (s + x) % 65535 == 0 <==> x == sum
  {
    var q, r := (s - 1) / 65535, (s - 1) % 65535;
    assert s == 65535 * q + r + 1;
    assert s + x == 65535 * (q + 1) + (x - sum);
    if x != sum {
      assert (s + x) % 65535 == (if x > sum then x - sum else x - sum + 65535) % 65535;
    }
  }
}
