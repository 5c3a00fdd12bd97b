/** The IPv4/UDP packet builder and parser of packet.c (RFC 791 section 3.1, RFC 768). */
module Packet {
  import opened Words
  import opened Checksum

  const MAX_PAYLOAD := 1400
  const IP_HEADER := 20
  const UDP_HEADER := 8

  /** The arguments of a build, the process id among them. */
  datatype Build = Build(src: Word32, dst: Word32, srcPort: Word16, dstPort: Word16, payload: seq<Byte>, ttl: Byte, pid: nat)
  {
    ghost predicate Sendable() {
      |payload| <= MAX_PAYLOAD
    }

    function Total(): nat {
      IP_HEADER + UDP_HEADER + |payload|
    }
  }

  // The header as bytes, in the order of its fields: up to the checksum, and after it.

  function IpFront(order: HostOrder, b: Build): (s: seq<Byte>)
    requires b.Sendable()
    ensures |s| == 10
  {
    [0x45, 0] + Net16(order, b.Total()) + Net16(order, b.pid % 0x1_0000) +
    [0, 0, if b.ttl != 0 then b.ttl else 64, IPPROTO_UDP]
  }

  function IpBack(order: HostOrder, b: Build): (s: seq<Byte>)
    ensures |s| == 8
  {
    Store32(order, b.src) + Store32(order, b.dst)
  }

  function UdpFront(order: HostOrder, b: Build): (s: seq<Byte>)
    requires b.Sendable()
    ensures |s| == 6
  {
    Net16(order, b.srcPort) + Net16(order, b.dstPort) +
    Net16(order, UDP_HEADER + |b.payload|)
  }

  function IpHeader(order: HostOrder, b: Build, check: Word16): (s: seq<Byte>)
    requires b.Sendable()
    ensures |s| == IP_HEADER
  {
    IpFront(order, b) + Store16(order, check) + IpBack(order, b)
  }

  function UdpDatagram(order: HostOrder, b: Build, check: Word16): (s: seq<Byte>)
    requires b.Sendable()
    ensures |s| == UDP_HEADER + |b.payload|
  {
    UdpFront(order, b) + Store16(order, check) + b.payload
  }

  /** The packet; both checksums are stored as host words, without htons. */
  function Built(order: HostOrder, b: Build): (s: seq<Byte>)
    requires b.Sendable()
    ensures |s| == b.Total()
  {
    IpHeader(order, b, Rfc1071(IpHeader(order, b, 0))) +
    UdpDatagram(order, b, Rfc768(order, b.src, b.dst, UdpDatagram(order, b, 0)))
  }

  method PutBytes(out: array<Byte>, at: nat, bytes: seq<Byte>)
    requires at + |bytes| <= out.Length
    modifies out
    ensures forall k :: 0 <= k < out.Length ==>
      out[k] == if at <= k < at + |bytes| then bytes[k - at] else old(out[k])
  {
    for i := 0 to |bytes|
      invariant forall k :: 0 <= k < out.Length ==>
        out[k] == if at <= k < at + i then bytes[k - at] else old(out[k])
    {
      out[at + i] := bytes[i];
    }
  }

  /** Writes the fields of the IPv4 header one by one, the checksum as zero. */
  method WriteIpFields(out: array<Byte>, totLen: seq<Byte>, id: seq<Byte>, ttl: Byte, saddr: seq<Byte>, daddr: seq<Byte>)
    requires out.Length >= IP_HEADER && |totLen| == |id| == 2 && |saddr| == |daddr| == 4
    modifies out
    ensures out[..IP_HEADER] ==
      ([0x45, 0] + totLen + id + [0, 0, ttl, IPPROTO_UDP]) + [0, 0] + (saddr + daddr)
    ensures forall k :: IP_HEADER <= k < out.Length ==> out[k] == old(out[k])
  {
    PutBytes(out, 0, [0x45, 0]);
    PutBytes(out, 2, totLen);
    PutBytes(out, 4, id);
    PutBytes(out, 6, [0, 0, ttl, IPPROTO_UDP]);
    PutBytes(out, 12, saddr);
    PutBytes(out, 16, daddr);
    PutBytes(out, 10, [0, 0]);
  }

  /** Writes the fields of the UDP header and the payload, the checksum as zero. */
  method WriteUdpFields(out: array<Byte>, source: seq<Byte>, dest: seq<Byte>, len: seq<Byte>, payload: seq<Byte>)
    requires out.Length >= IP_HEADER + UDP_HEADER + |payload| && |source| == |dest| == |len| == 2
    modifies out
    ensures out[IP_HEADER..IP_HEADER + UDP_HEADER + |payload|] == (source + dest + len) + [0, 0] + payload
    ensures forall k :: 0 <= k < out.Length && !(IP_HEADER <= k < IP_HEADER + UDP_HEADER + |payload|) ==>
      out[k] == old(out[k])
  {
    PutBytes(out, IP_HEADER, source);
    PutBytes(out, IP_HEADER + 2, dest);
    PutBytes(out, IP_HEADER + 4, len);
    PutBytes(out, IP_HEADER + 6, [0, 0]);
    PutBytes(out, IP_HEADER + UDP_HEADER, payload);
  }

  /** Replaces the zero checksum field at an index by the given bytes. */
  method PutCheck(out: array<Byte>, from: nat, at: nat, to: nat, ghost front: seq<Byte>, check: seq<Byte>, ghost back: seq<Byte>)
    requires |check| == 2 && from + |front| == at && to == at + 2 + |back| && to <= out.Length
    requires out[from..to] == front + [0, 0] + back
    modifies out
    ensures out[from..to] == front + check + back
    ensures forall k :: 0 <= k < out.Length && !(from <= k < to) ==> out[k] == old(out[k])
  {
    ghost var before := out[from..to];
    PutBytes(out, at, check);
    forall k | from <= k < to && !(at <= k < at + 2)
      ensures out[k] == before[k - from]
    {
    }
  }

  lemma Join(s: seq<Byte>, a: seq<Byte>, b: seq<Byte>, c: seq<Byte>)
    requires |s| == |a| + |b| + |c|
    requires s[0..|a|] == a && s[|a|..|a| + |b|] == b && s[|a| + |b|..] == c
    ensures s == a + b + c
  {
    assert s == s[0..|a|] + s[|a|..|a| + |b|] + s[|a| + |b|..];
  }

  method BuildIp(order: HostOrder, out: array<Byte>, b: Build)
    requires b.Sendable() && out.Length >= b.Total()
    modifies out
    ensures out[0..IP_HEADER] == IpHeader(order, b, Rfc1071(IpHeader(order, b, 0)))
    ensures forall k :: IP_HEADER <= k < out.Length ==> out[k] == old(out[k])
  {
    WriteIpFields(out, Net16(order, b.Total()), Net16(order, b.pid % 0x1_0000),
                  if b.ttl != 0 then b.ttl else 64, Store32(order, b.src), Store32(order, b.dst));
    ghost var zero: seq<Byte> := Store16(order, 0);
    assert zero == [0, 0];
    assert out[0..IP_HEADER] == out[..IP_HEADER] == IpHeader(order, b, 0);
    var check := Checksum16(out[..IP_HEADER]);
    PutCheck(out, 0, 10, IP_HEADER, IpFront(order, b), Store16(order, check), IpBack(order, b));
  }

  method BuildUdp(order: HostOrder, out: array<Byte>, b: Build)
    requires b.Sendable() && out.Length >= b.Total()
    modifies out
    ensures out[IP_HEADER..b.Total()] ==
      UdpDatagram(order, b, Rfc768(order, b.src, b.dst, UdpDatagram(order, b, 0)))
    ensures forall k :: 0 <= k < out.Length && !(IP_HEADER <= k < b.Total()) ==> out[k] == old(out[k])
  {
    WriteUdpFields(out, Net16(order, b.srcPort), Net16(order, b.dstPort),
                   Net16(order, UDP_HEADER + |b.payload|), b.payload);
    ghost var zero: seq<Byte> := Store16(order, 0);
    assert zero == [0, 0];
    assert out[IP_HEADER..b.Total()] == UdpDatagram(order, b, 0);
    var check := UdpChecksum(order, b.src, b.dst, out[IP_HEADER..b.Total()]);
    PutCheck(out, IP_HEADER, IP_HEADER + 6, b.Total(), UdpFront(order, b), Store16(order, check), b.payload);
  }

  /** rawudp_build_ipv4_udp. */
  method BuildIpv4Udp(order: HostOrder, out: array<Byte>, b: Build) returns (r: int)
    modifies out
    ensures r == if b.Total() <= out.Length && b.Sendable() then b.Total() else -1
    ensures r == -1 ==> out[..] == old(out[..])
    ensures r >= 0 ==> out[..] == Built(order, b) + old(out[r..])
  {
    hide IpHeader, UdpDatagram, Rfc768, Rfc1071;
    var total := b.Total();
    if total > out.Length || |b.payload| > MAX_PAYLOAD {
      return -1;
    }
    ghost var rest := out[total..];
    PutBytes(out, 0, Zeroes(total));
    BuildIp(order, out, b);
    ghost var ip := out[0..IP_HEADER];
    BuildUdp(order, out, b);
    ghost var udp := out[IP_HEADER..total];
    Join(out[..], ip, udp, rest);
    return total;
  }

  /** What the parser hands back; the payload is a view into the packet. */
  datatype Datagram = Datagram(src: Word32, dst: Word32, srcPort: Word16, dstPort: Word16, offset: nat, len: nat)

  /** rawudp_parse_ipv4_udp. Neither checksum nor the total length is looked at. */
  function Parse(order: HostOrder, pkt: seq<Byte>): (r: Option<Datagram>)
    ensures r.Some? ==> IP_HEADER + UDP_HEADER <= r.value.offset && r.value.offset + r.value.len <= |pkt|
  {
    if |pkt| < IP_HEADER || pkt[0] / 16 != 4 then None else
    var hl := pkt[0] % 16 * 4;
    if hl < IP_HEADER || |pkt| < hl + UDP_HEADER || pkt[9] != IPPROTO_UDP then None else
    var udpLen := NetWord(order, pkt[hl + 4..hl + 6]);
    if udpLen < UDP_HEADER || |pkt| < hl + udpLen then None else
    Some(Datagram(Load32(order, pkt[12..16]), Load32(order, pkt[16..20]),
                  NetWord(order, pkt[hl..hl + 2]), NetWord(order, pkt[hl + 2..hl + 4]),
                  hl + UDP_HEADER, udpLen - UDP_HEADER))
  }

  /** The bytes a parsed datagram carries. */
  function Payload(pkt: seq<Byte>, d: Datagram): seq<Byte>
    requires d.offset + d.len <= |pkt|
  {
    pkt[d.offset..d.offset + d.len]
  }

  /** An IPv4 header, options included, and a UDP datagram, each as long as it says it is. */
  ghost predicate IpUdp(order: HostOrder, hdr: seq<Byte>, udp: seq<Byte>) {
    && |hdr| >= IP_HEADER && hdr[0] / 16 == 4 && |hdr| == hdr[0] % 16 * 4 && hdr[9] == IPPROTO_UDP
    && |udp| >= UDP_HEADER && |udp| == NetWord(order, udp[4..6])
  }

  /** The parser takes apart every header and datagram it is given together, with options and trailing bytes. */
  lemma ParseTakes(order: HostOrder, hdr: seq<Byte>, udp: seq<Byte>, rest: seq<Byte>)
    requires IpUdp(order, hdr, udp)
    ensures var pkt := hdr + udp + rest;
      && Parse(order, pkt) == Some(Datagram(Load32(order, hdr[12..16]), Load32(order, hdr[16..20]),
                                            NetWord(order, udp[0..2]), NetWord(order, udp[2..4]),
                                            |hdr| + UDP_HEADER, |udp| - UDP_HEADER))
      && Payload(pkt, Parse(order, pkt).value) == udp[UDP_HEADER..]
  {
    hide Load32, NetWord;
    var pkt, hl := hdr + udp + rest, |hdr|;
    assert pkt[12..16] == hdr[12..16] && pkt[16..20] == hdr[16..20];
    assert pkt[hl..hl + 2] == udp[0..2] && pkt[hl + 2..hl + 4] == udp[2..4] && pkt[hl + 4..hl + 6] == udp[4..6];
    assert pkt[hl + UDP_HEADER..hl + |udp|] == udp[UDP_HEADER..];
  }

  /** And it accepts nothing else. */
  lemma ParseIff(order: HostOrder, pkt: seq<Byte>)
    ensures Parse(order, pkt).Some? <==> exists hdr, udp, rest :: pkt == hdr + udp + rest && IpUdp(order, hdr, udp)
  {
    if Parse(order, pkt).Some? {
      var hl := pkt[0] % 16 * 4;
      var end := hl + NetWord(order, pkt[hl + 4..hl + 6]);
      var hdr, udp, rest := pkt[..hl], pkt[hl..end], pkt[end..];
      assert pkt == hdr + udp + rest;
      assert udp[4..6] == pkt[hl + 4..hl + 6];
      assert IpUdp(order, hdr, udp);
    }
    if hdr, udp, rest :| pkt == hdr + udp + rest && IpUdp(order, hdr, udp) {
      ParseTakes(order, hdr, udp, rest);
    }
  }

  /** Where the fields of a packet lie. */
  lemma FieldOffsets(front: seq<Byte>, check: seq<Byte>, src: seq<Byte>, dst: seq<Byte>,
                     source: seq<Byte>, dest: seq<Byte>, len: seq<Byte>, udpCheck: seq<Byte>, rest: seq<Byte>)
    requires |front| == 10 && |check| == 2 && |src| == |dst| == 4
    requires |source| == |dest| == |len| == |udpCheck| == 2
    ensures var pkt := (front + check + (src + dst)) + ((source + dest + len) + udpCheck + rest);
      pkt[..10] == front && pkt[12..16] == src && pkt[16..20] == dst &&
      pkt[20..22] == source && pkt[22..24] == dest && pkt[24..26] == len && pkt[28..] == rest
  {
    var ip, udp := front + check + (src + dst), (source + dest + len) + udpCheck + rest;
    var pkt := ip + udp;
    assert pkt[..10] == ip[..10] == front;
    assert pkt[12..16] == ip[12..16] == src && pkt[16..20] == ip[16..20] == dst;
    assert pkt[20..22] == udp[0..2] == source && pkt[22..24] == udp[2..4] == dest;
    assert pkt[24..26] == udp[4..6] == len && pkt[28..] == udp[8..] == rest;
  }

  /** The parser finds those fields, whatever the checksums hold. */
  lemma ParseOfFields(order: HostOrder, b: Build, ipCheck: Word16, udpCheck: Word16, trailing: seq<Byte>)
    requires b.Sendable()
    ensures var pkt := IpHeader(order, b, ipCheck) + UdpDatagram(order, b, udpCheck) + trailing;
      Parse(order, pkt) == Some(Datagram(b.src, b.dst, b.srcPort, b.dstPort, 28, |b.payload|)) &&
      pkt[28..28 + |b.payload|] == b.payload
  {
    var pkt := IpHeader(order, b, ipCheck) + UdpDatagram(order, b, udpCheck) + trailing;
    var rest := b.payload + trailing;
    var udpLen := UDP_HEADER + |b.payload|;
    assert pkt == IpHeader(order, b, ipCheck) + (UdpFront(order, b) + Store16(order, udpCheck) + rest);
    FieldOffsets(IpFront(order, b), Store16(order, ipCheck), Store32(order, b.src), Store32(order, b.dst),
                 Net16(order, b.srcPort), Net16(order, b.dstPort), Net16(order, udpLen),
                 Store16(order, udpCheck), rest);
    assert pkt[28..28 + |b.payload|] == pkt[28..][..|b.payload|] == b.payload;
    assert IpFront(order, b)[0] == 0x45 && IpFront(order, b)[9] == IPPROTO_UDP;
    ParseOfFront(order, b, pkt);
  }

  lemma ParseOfFront(order: HostOrder, b: Build, pkt: seq<Byte>)
    requires b.Sendable() && |pkt| >= b.Total()
    requires pkt[..10][0] == 0x45 && pkt[..10][9] == IPPROTO_UDP
    requires pkt[12..16] == Store32(order, b.src) && pkt[16..20] == Store32(order, b.dst)
    requires pkt[20..22] == Net16(order, b.srcPort) && pkt[22..24] == Net16(order, b.dstPort)
    requires pkt[24..26] == Net16(order, UDP_HEADER + |b.payload|)
    ensures Parse(order, pkt) == Some(Datagram(b.src, b.dst, b.srcPort, b.dstPort, 28, |b.payload|))
  {
    LoadOfStore32(order, b.src);
    LoadOfStore32(order, b.dst);
    NetworkOrder(order, b.srcPort);
    NetworkOrder(order, b.dstPort);
    NetworkOrder(order, UDP_HEADER + |b.payload|);
  }

  /** Parsing what was built gives back what was put in, whatever bytes follow it in the buffer. */
  lemma ParseOfBuilt(order: HostOrder, b: Build, trailing: seq<Byte>)
    requires b.Sendable()
    ensures var pkt := Built(order, b) + trailing;
      Parse(order, pkt) == Some(Datagram(b.src, b.dst, b.srcPort, b.dstPort, 28, |b.payload|)) &&
      pkt[28..28 + |b.payload|] == b.payload
  {
    ParseOfFields(order, b, Rfc1071(IpHeader(order, b, 0)),
                  Rfc768(order, b.src, b.dst, UdpDatagram(order, b, 0)), trailing);
  }

  /** The same of the packet alone. */
  lemma ParseOfPacket(order: HostOrder, b: Build)
    requires b.Sendable()
    ensures var d := Datagram(b.src, b.dst, b.srcPort, b.dstPort, 28, |b.payload|);
      Parse(order, Built(order, b)) == Some(d) && Payload(Built(order, b), d) == b.payload
  {
    hide Built;
    ParseOfBuilt(order, b, []);
    assert Built(order, b) + [] == Built(order, b);
  }

  lemma WordSumPatch(front: seq<Byte>, x: Byte, y: Byte, back: seq<Byte>)
    requires |front| % 2 == 0
    ensures WordSum(front + [x, y] + back) == WordSum(front) + Word(x, y) + WordSum(back)
  {
    WordSumAppend(front + [x, y], back);
    WordSumAppend(front, [x, y]);
  }

  /** Storing c as a host word in the zero field after front: the sum comes out all ones on a big-endian host,
      and on a little-endian one exactly when the two bytes of c are equal. */
  lemma StoredChecksum(order: HostOrder, front: seq<Byte>, c: Word16, back: seq<Byte>)
    requires |front| % 2 == 0 && WordSum(front) > 0
    requires IsChecksumOf(c, WordSum(front + [0, 0] + back))
    ensures Rfc1071(front + Store16(order, c) + back) == 0 <==> (order.BigEndian? || c / 0x100 == c % 0x100)
  {
    hide WordSum, Canonical, IsChecksumOf;
    var sum := WordSum(front + [0, 0] + back);
    var hi, lo := c / 0x100, c % 0x100;
    WordSumPatch(front, 0, 0, back);
    if order.BigEndian? {
      WordSumPatch(front, hi, lo, back);
      OnesIffChecksum(sum, c);
    } else {
      WordSumPatch(front, lo, hi, back);
      OnesIffSameBytes(sum, hi, lo);
    }
  }

  lemma BuiltIp(order: HostOrder, b: Build)
    requires b.Sendable()
    ensures var c := Rfc1071(IpHeader(order, b, 0));
      Built(order, b)[..IP_HEADER] == IpFront(order, b) + Store16(order, c) + IpBack(order, b)
  {
    hide UdpDatagram, Rfc768, Rfc1071, IpFront, IpBack;
  }

  lemma CheckInPlace(order: HostOrder, b: Build)
    requires b.Sendable()
    ensures Built(order, b)[10..12] == Store16(order, Rfc1071(IpHeader(order, b, 0)))
  {
    hide Built, Rfc1071, IpFront, IpBack, Store16;
    BuiltIp(order, b);
    var p, c := Built(order, b), Rfc1071(IpHeader(order, b, 0));
    assert p[10..12] == p[..IP_HEADER][10..12];
    assert (IpFront(order, b) + Store16(order, c) + IpBack(order, b))[10..12] == Store16(order, c);
  }

  /** When the header checksum of a built packet verifies: on a big-endian host, or if its two bytes are equal. */
  lemma IpChecksumVerifies(order: HostOrder, b: Build)
    requires b.Sendable()
    ensures var p := Built(order, b);
      Rfc1071(p[..IP_HEADER]) == 0 <==> (order.BigEndian? || p[10] == p[11])
  {
    var front, back := IpFront(order, b), IpBack(order, b);
    assert WordSum(front) > 0 by {
      assert front[0] == 0x45;
      WordSumZero(front);
    }
    hide Built, IpFront, IpBack, WordSum;
    var p, c := Built(order, b), Rfc1071(IpHeader(order, b, 0));
    BuiltIp(order, b);
    var zero: seq<Byte> := Store16(order, 0);
    assert zero == [0, 0];
    StoredChecksum(order, front, c, back);
    CheckInPlace(order, b);
  }

  lemma Reassociate(a: seq<Byte>, b: seq<Byte>, c: seq<Byte>, d: seq<Byte>)
    ensures a + (b + c + d) == (a + b) + c + d
  {
  }

  lemma PseudoHeaderPositive(order: HostOrder, src: Word32, dst: Word32, udpLen: nat, more: seq<Byte>)
    ensures WordSum(PseudoHeader(order, src, dst, udpLen) + more) > 0
  {
    var ph := PseudoHeader(order, src, dst, udpLen);
    assert ph[9] == IPPROTO_UDP;
    WordSumZero(ph);
    WordSumAppend(ph, more);
  }

  lemma StoredUdpChecksum(order: HostOrder, ph: seq<Byte>, front: seq<Byte>, c: Word16, back: seq<Byte>)
    requires |ph + front| % 2 == 0 && WordSum(ph + front) > 0
    requires IsChecksumOf(c, WordSum(ph + (front + [0, 0] + back)))
    ensures Rfc1071(ph + (front + Store16(order, c) + back)) == 0 <==> (order.BigEndian? || c / 0x100 == c % 0x100)
  {
    Reassociate(ph, front, [0, 0], back);
    Reassociate(ph, front, Store16(order, c), back);
    StoredChecksum(order, ph + front, c, back);
  }

  lemma BuiltUdp(order: HostOrder, b: Build)
    requires b.Sendable()
    ensures var c := Rfc768(order, b.src, b.dst, UdpDatagram(order, b, 0));
      Built(order, b)[IP_HEADER..] == UdpFront(order, b) + Store16(order, c) + b.payload
  {
    hide IpHeader, Rfc768, Rfc1071, UdpFront;
  }

  lemma Rfc768IsChecksum(order: HostOrder, src: Word32, dst: Word32, udp: seq<Byte>)
    ensures IsChecksumOf(Rfc768(order, src, dst, udp), WordSum(PseudoHeader(order, src, dst, |udp|) + udp))
  {
    hide PseudoHeader, WordSum, Canonical;
  }

  lemma UdpSumVerifies(order: HostOrder, b: Build)
    requires b.Sendable()
    ensures var udp := Built(order, b)[IP_HEADER..];
      var c := Rfc768(order, b.src, b.dst, UdpDatagram(order, b, 0));
      Rfc1071(PseudoHeader(order, b.src, b.dst, |udp|) + udp) == 0 <==> (order.BigEndian? || c / 0x100 == c % 0x100)
  {
    hide Built, UdpFront, PseudoHeader, Rfc768, Rfc1071, IsChecksumOf, WordSum;
    var zeroed := UdpDatagram(order, b, 0);
    var ph := PseudoHeader(order, b.src, b.dst, |zeroed|);
    PseudoHeaderPositive(order, b.src, b.dst, |zeroed|, UdpFront(order, b));
    var zero: seq<Byte> := Store16(order, 0);
    assert zero == [0, 0];
    BuiltUdp(order, b);
    Rfc768IsChecksum(order, b.src, b.dst, zeroed);
    StoredUdpChecksum(order, ph, UdpFront(order, b), Rfc768(order, b.src, b.dst, zeroed), b.payload);
  }

  lemma BytesInPlace(order: HostOrder, b: Build)
    requires b.Sendable()
    ensures var p := Built(order, b);
      && p[..10] == IpFront(order, b) && p[12..16] == Store32(order, b.src) && p[16..20] == Store32(order, b.dst)
      && p[20..22] == Net16(order, b.srcPort) && p[22..24] == Net16(order, b.dstPort)
      && p[24..26] == Net16(order, UDP_HEADER + |b.payload|) && p[28..] == b.payload
  {
    hide Rfc1071, Rfc768, IpFront, Net16, Store32;
    var ipCheck := Rfc1071(IpHeader(order, b, 0));
    var udpCheck := Rfc768(order, b.src, b.dst, UdpDatagram(order, b, 0));
    FieldOffsets(IpFront(order, b), Store16(order, ipCheck), Store32(order, b.src), Store32(order, b.dst),
                 Net16(order, b.srcPort), Net16(order, b.dstPort), Net16(order, UDP_HEADER + |b.payload|),
                 Store16(order, udpCheck), b.payload);
  }

  /** The fields of a built packet by their places in it, read in network order, as section 3.1 of RFC 791 and RFC 768
      lay them out: version and header length, total length, identification, time to live, protocol, addresses, ports,
      UDP length and payload. */
  lemma FieldsInPlace(order: HostOrder, b: Build)
    requires b.Sendable()
    ensures var p := Built(order, b);
      && p[0] == 0x45 && p[1] == 0 && Word(p[2], p[3]) == |p| && Word(p[4], p[5]) == b.pid % 0x1_0000
      && p[6..8] == [0, 0] && p[8] == (if b.ttl == 0 then 64 else b.ttl) && p[9] == 17
      && p[12..16] == Store32(order, b.src) && p[16..20] == Store32(order, b.dst)
      && Word(p[20], p[21]) == b.srcPort && Word(p[22], p[23]) == b.dstPort
      && Word(p[24], p[25]) == |p| - 20 && p[28..] == b.payload
  {
    hide Built, IpFront, Net16, Store32, Word;
    var p := Built(order, b);
    BytesInPlace(order, b);
    FrontInPlace(order, b);
    PortsInPlace(order, b);
    assert p[20] == p[20..22][0] && p[21] == p[20..22][1];
    assert p[22] == p[22..24][0] && p[23] == p[22..24][1];
    assert p[24] == p[24..26][0] && p[25] == p[24..26][1];
    assert forall k :: 0 <= k < 10 ==> p[k] == p[..10][k];
    assert p[6..8] == p[..10][6..8];
  }

  lemma FrontInPlace(order: HostOrder, b: Build)
    requires b.Sendable()
    ensures var f := IpFront(order, b);
      && f[0] == 0x45 && f[1] == 0 && Word(f[2], f[3]) == b.Total() && Word(f[4], f[5]) == b.pid % 0x1_0000
      && f[6..8] == [0, 0] && f[8] == (if b.ttl == 0 then 64 else b.ttl) && f[9] == 17
  {
    NetworkOrder(order, b.Total());
    NetworkOrder(order, b.pid % 0x1_0000);
  }

  lemma PortsInPlace(order: HostOrder, b: Build)
    requires b.Sendable()
    ensures var source, dest := Net16(order, b.srcPort), Net16(order, b.dstPort);
      var len := Net16(order, UDP_HEADER + |b.payload|);
      && Word(source[0], source[1]) == b.srcPort && Word(dest[0], dest[1]) == b.dstPort
      && Word(len[0], len[1]) == UDP_HEADER + |b.payload|
  {
    NetworkOrder(order, b.srcPort);
    NetworkOrder(order, b.dstPort);
    NetworkOrder(order, UDP_HEADER + |b.payload|);
  }

  /** What a receiver sums to check a datagram, taken from the packet alone: both addresses, a zero byte, the protocol,
      the UDP length, and the datagram (RFC 768). */
  function Summed(p: seq<Byte>): seq<Byte>
    requires |p| >= 28
  {
    p[12..20] + [0, 17] + p[24..26] + p[20..]
  }

  /** The pseudo-header the checksum was made with is the one in the packet. */
  lemma PseudoHeaderInPacket(order: HostOrder, b: Build)
    requires b.Sendable()
    ensures var p := Built(order, b);
      PseudoHeader(order, b.src, b.dst, UDP_HEADER + |b.payload|) == p[12..20] + [0, 17] + p[24..26]
  {
    hide Built, PseudoHeader, Store32, Net16, IpFront;
    BytesInPlace(order, b);
    TwoFields(Built(order, b));
    PseudoHeaderBytes(order, b.src, b.dst, UDP_HEADER + |b.payload|);
  }

  lemma TwoFields(p: seq<Byte>)
    requires |p| >= 20
    ensures p[12..20] == p[12..16] + p[16..20]
  {
  }

  lemma PseudoHeaderBytes(order: HostOrder, src: Word32, dst: Word32, len: Word16)
    ensures PseudoHeader(order, src, dst, len) == Store32(order, src) + Store32(order, dst) + [0, 17] + Net16(order, len)
  {
    hide Store32, Store16;
  }

  /** When the UDP checksum of a built packet verifies: on a big-endian host, or if its two bytes are equal. */
  lemma UdpChecksumVerifies(order: HostOrder, b: Build)
    requires b.Sendable()
    ensures var p := Built(order, b);
      Rfc1071(Summed(p)) == 0 <==> (order.BigEndian? || p[26] == p[27])
  {
    hide Built, UdpFront, PseudoHeader, Rfc768, Rfc1071;
    var p, c := Built(order, b), Rfc768(order, b.src, b.dst, UdpDatagram(order, b, 0));
    UdpSumVerifies(order, b);
    PseudoHeaderInPacket(order, b);
    BuiltUdp(order, b);
    assert p[26..28] == p[IP_HEADER..][6..8] == Store16(order, c);
  }

  /** On a little-endian host there are packets whose header checksum does not verify. */
  lemma LittleEndianFails()
    ensures var b := Build(0, 0, 1, 1, [], 64, 0);
      b.Sendable() && Built(LittleEndian, b)[10..12] == [0xD2, 0x7A] &&
      Rfc1071(Built(LittleEndian, b)[..IP_HEADER]) != 0
  {
    hide Built, WordSum;
    var b := Build(0, 0, 1, 1, [], 64, 0);
    var zeroed := IpHeader(LittleEndian, b, 0);
    assert zeroed == [0x45, 0, 0, 28] + [0, 0, 0, 0] + [64, 17] + Zeroes(10);
    WordSumPatch([0x45, 0, 0, 28] + [0, 0, 0, 0], 64, 17, Zeroes(10));
    WordSumPatch([0x45, 0], 0, 28, [0, 0, 0, 0]);
    WordSumPatch([], 0x45, 0, []);
    WordSumZero([]);
    WordSumZero([0, 0, 0, 0]);
    WordSumZero(Zeroes(10));
    assert [0x45, 0] + [0, 28] + [0, 0, 0, 0] == [0x45, 0, 0, 28] + [0, 0, 0, 0];
    assert [] + [0x45, 0] + [] == [0x45, 0];
    assert WordSum(zeroed) == 0x852D;
    CheckInPlace(LittleEndian, b);
    IpChecksumVerifies(LittleEndian, b);
  }

  /** Nor does the UDP checksum of the same packet: 0xFFDC is stored with its bytes swapped. */
  lemma LittleEndianUdpFails()
    ensures var p := Built(LittleEndian, Build(0, 0, 1, 1, [], 64, 0));
      p[26..28] == [0xDC, 0xFF] && Rfc1071(Summed(p)) != 0
  {
    hide Built, WordSum, Rfc1071;
    var b := Build(0, 0, 1, 1, [], 64, 0);
    var zeroed := UdpDatagram(LittleEndian, b, 0);
    assert PseudoHeader(LittleEndian, 0, 0, 8) + zeroed ==
      Zeroes(8) + [0, 17] + ([0, 8] + [0, 1] + ([0, 1] + [0, 8] + Zeroes(2)));
    SumOfFour();
    assert Rfc768(LittleEndian, 0, 0, zeroed) == 0xFFDC;
    BuiltUdp(LittleEndian, b);
    var p := Built(LittleEndian, b);
    assert p[26..28] == p[IP_HEADER..][6..8];
    UdpChecksumVerifies(LittleEndian, b);
  }

  lemma SumOfFour()
    ensures Rfc1071(Zeroes(8) + [0, 17] + ([0, 8] + [0, 1] + ([0, 1] + [0, 8] + Zeroes(2)))) == 0xFFDC
  {
    hide WordSum;
    WordSumPatch(Zeroes(8), 0, 17, [0, 8] + [0, 1] + ([0, 1] + [0, 8] + Zeroes(2)));
    WordSumPatch([0, 8], 0, 1, [0, 1] + [0, 8] + Zeroes(2));
    WordSumPatch([0, 1], 0, 8, Zeroes(2));
    WordSumPatch([], 0, 8, []);
    WordSumPatch([], 0, 1, []);
    WordSumZero([]);
    WordSumZero(Zeroes(8));
    WordSumZero(Zeroes(2));
    assert [] + [0, 8] + [] == [0, 8] && [] + [0, 1] + [] == [0, 1];
  }
}
