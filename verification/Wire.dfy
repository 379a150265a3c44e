/** Packets as octet strings, and the fields that every LISP control message is made of. */
module Wire {
  import opened Types

  type Octet = x: int | 0 <= x < 256 witness 0

  type Packet = seq<Octet>

  /** The octet at a place; a packet lies in a zeroed buffer. */
  function At(s: Packet, i: nat): Octet {
    if i < |s| then s[i] else 0
  }

  function Drop(s: Packet, n: nat): Packet {
    if n <= |s| then s[n..] else []
  }

  /** n octets from a place. */
  function Octets(s: Packet, i: nat, n: nat): (r: Packet)
    ensures |r| == n
  {
    seq<Octet>(n, k requires 0 <= k < n => At(s, i + k))
  }

  /** A 16-bit field, most significant octet first. */
  function Short(s: Packet, i: nat): nat {
    256 * At(s, i) + At(s, i + 1)
  }

  function ShortOctets(n: nat): (r: Packet)
    ensures |r| == 2
  {
    [n / 256 % 256, n % 256]
  }

  function Long(s: Packet, i: nat): nat {
    0x100_0000 * At(s, i) + 0x1_0000 * At(s, i + 1) + 0x100 * At(s, i + 2) + At(s, i + 3)
  }

  function LongOctets(n: nat): (r: Packet)
    ensures |r| == 4
  {
    [n / 0x100_0000 % 256, n / 0x1_0000 % 256, n / 0x100 % 256, n % 256]
  }

  lemma DropAt(s: Packet, n: nat, i: nat)
    ensures At(Drop(s, n), i) == At(s, n + i)
  {
  }

  /** Zeros behind a packet make no difference to what is read. */
  lemma ZerosBehind(s: Packet, n: nat, i: nat)
    ensures At(s + seq(n, _ => 0), i) == At(s, i)
  {
  }

  lemma DropOctets(s: Packet, n: nat, i: nat, m: nat)
    ensures Octets(Drop(s, n), i, m) == Octets(s, n + i, m)
  {
    forall k | 0 <= k < m ensures Octets(Drop(s, n), i, m)[k] == Octets(s, n + i, m)[k] {
      DropAt(s, n, i + k);
    }
  }

  lemma DropDrop(s: Packet, n: nat, m: nat)
    ensures Drop(Drop(s, n), m) == Drop(s, n + m)
  {
  }

  /** What follows a known beginning. */
  lemma Behind(a: Packet, b: Packet, i: nat)
    ensures At(a + b, |a| + i) == At(b, i)
    ensures i < |a| ==> At(a + b, i) == a[i]
    ensures Drop(a + b, |a|) == b
  {
  }

  lemma OctetsBehind(a: Packet, b: Packet, c: Packet)
    ensures Octets(a + (b + c), |a|, |b|) == b
  {
    forall k | 0 <= k < |b| ensures Octets(a + (b + c), |a|, |b|)[k] == b[k] {
      Behind(a, b + c, k);
    }
  }

  /** A field of four octets is two of two, the high one first. */
  lemma LongIsShorts(s: Packet, i: nat)
    ensures Long(s, i) == 65536 * Short(s, i) + Short(s, i + 2)
  {
  }

  lemma LongOctetsAreShorts(high: nat, low: nat)
    requires high < 65536 && low < 65536
    ensures LongOctets(65536 * high + low) == ShortOctets(high) + ShortOctets(low)
  {
    var n := 65536 * high + low;
    assert n / 0x1_0000 == high;
    assert n / 0x100 == 256 * high + low / 256;
    assert n / 0x100_0000 == high / 256;
  }

  lemma LongBack(n: nat)
    requires n < 0x1_0000_0000
    ensures Long(LongOctets(n), 0) == n
  {
    assert n / 0x100 == 256 * (n / 0x1_0000) + n / 0x100 % 256;
    assert n / 0x1_0000 == 256 * (n / 0x100_0000) + n / 0x1_0000 % 256;
    assert n / 0x100_0000 % 256 == n / 0x100_0000;
  }

  // ---------- addresses with their AFI ----------

  datatype AddressRecord = Ip4(octets: Packet) | Ip6(octets: Packet)

  type Address = a: AddressRecord | |a.octets| == (if a.Ip4? then 4 else 16) witness Ip4([0, 0, 0, 0])

  const AFI_IP := 1
  const AFI_IPV6 := 2
  const AFI_LCAF := 16387

  function Afi(a: Address): Octet {
    if a.Ip4? then AFI_IP else AFI_IPV6
  }

  function WireAddress(a: Address): Packet {
    [0, Afi(a)] + a.octets
  }

  function Size(a: Address): nat {
    if a.Ip4? then 6 else 18
  }

  /** The address at the beginning, if its AFI is one of the two. */
  function ReadAddress(s: Packet): Option<Address> {
    if Short(s, 0) == AFI_IP then Some(Ip4(Octets(s, 2, 4)))
    else if Short(s, 0) == AFI_IPV6 then Some(Ip6(Octets(s, 2, 16)))
    else None
  }

  lemma AddressBack(a: Address, rest: Packet)
    ensures ReadAddress(WireAddress(a) + rest) == Some(a) && Drop(WireAddress(a) + rest, Size(a)) == rest
    ensures |WireAddress(a)| == Size(a)
  {
    assert WireAddress(a) + rest == [0, Afi(a)] + (a.octets + rest);
    OctetsBehind([0, Afi(a)], a.octets, rest);
    Behind(WireAddress(a), rest, 0);
  }
}
