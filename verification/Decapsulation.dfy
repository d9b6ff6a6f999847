/** Ethernet, VLAN, IPv4 and UDP decapsulation (`decode_ethernet`, `_decode_ipv4_udp`,
    passive_service.py): which payload of a captured packet reaches which parser. */
module Decapsulation {
  import opened Options
  import opened Bytes

  const MAX_CAPTURE := 9216
  const IP := 0x0800
  const ARP := 0x0806
  const LLDP := 0x88CC
  const VLAN := 0x8100
  const SERVICE_VLAN := 0x88A8
  const UDP: byte := 17
  const CDP_DESTINATION: seq<byte> := [0x01, 0x00, 0x0C, 0xCC, 0xCC, 0xCC]
  const CDP_SNAP: seq<byte> := [0xAA, 0xAA, 0x03, 0x00, 0x00, 0x0C, 0x20, 0x00]

  datatype Protocol = Lldp | Arp | Mdns | Dhcp | Cdp
  datatype Decoded = Decoded(protocol: Protocol, payload: seq<byte>)

  predicate IsFragment(p: seq<byte>)
    requires |p| >= 8
  {
    U16At(p, 6) % 0x4000 != 0
  }

  /** `_decode_ipv4_udp`. */
  function DecodeIpv4Udp(p: seq<byte>): Option<Decoded> {
    if |p| < 28 || p[0] / 16 != 4 then None else
      var header, total := p[0] % 16 * 4, U16At(p, 2);
      if header < 20 || total < header + 8 || total > |p| || p[9] != UDP || IsFragment(p) then None else
        var udp := p[header..total];
        var source, destination, length := U16At(udp, 0), U16At(udp, 2), U16At(udp, 4);
        if length < 8 || length > |udp| then None
        else if source == 5353 || destination == 5353 then Some(Decoded(Mdns, udp[8..length]))
        else if source in {67, 68} || destination in {67, 68} then Some(Decoded(Dhcp, udp[8..length]))
        else None
  }

  function DecodePayload(destination: seq<byte>, protocol: nat, payload: seq<byte>): Option<Decoded> {
    if protocol == LLDP then Some(Decoded(Lldp, payload))
    else if protocol == ARP then Some(Decoded(Arp, payload))
    else if protocol == IP then DecodeIpv4Udp(payload)
    else if protocol <= 1500 && destination == CDP_DESTINATION && CDP_SNAP <= payload then
      Some(Decoded(Cdp, payload[|CDP_SNAP|..]))
    else None
  }

  /** `decode_ethernet`. */
  function DecodeEthernet(packet: seq<byte>): Option<Decoded> {
    if |packet| < 14 || |packet| > MAX_CAPTURE then None
    else if U16At(packet, 12) == VLAN || U16At(packet, 12) == SERVICE_VLAN then
      if |packet| < 18 then None else DecodePayload(packet[..6], U16At(packet, 16), packet[18..])
    else DecodePayload(packet[..6], U16At(packet, 12), packet[14..])
  }

  // ----- building packets

  datatype Tag = Tag(kind: nat, control: nat)

  predicate GoodTag(t: Tag) {
    (t.kind == VLAN || t.kind == SERVICE_VLAN) && t.control < 65536
  }

  /** An Ethernet frame with or without a VLAN tag. */
  function Frame(destination: seq<byte>, source: seq<byte>, tag: Option<Tag>, protocol: nat, payload: seq<byte>): seq<byte> {
    destination + source
    + (if tag.None? then [] else Put16(tag.value.kind) + Put16(tag.value.control))
    + Put16(protocol) + payload
  }

  /** The fields of an IPv4 and UDP header around a body; options fill the header to full words. The
      fragment word holds three flags and the offset; the slack is part of the IP payload behind the
      length that UDP states. */
  datatype Datagram = Datagram(
    service: byte, id: nat, fragment: nat, ttl: byte, checksum: nat, addresses: seq<byte>, options: seq<byte>,
    sourcePort: nat, destinationPort: nat, udpChecksum: nat, body: seq<byte>, slack: seq<byte>)

  /** More fragments follow, or the offset is not 0; the other two flags do not matter. */
  predicate Fragmented(d: Datagram) { d.fragment % 0x4000 != 0 }

  function TotalLength(d: Datagram): nat { 28 + |d.options| + |d.body| + |d.slack| }

  predicate GoodDatagram(d: Datagram) {
    && d.id < 65536 && d.fragment < 65536 && d.checksum < 65536 && |d.addresses| == 8 && |d.options| <= 40 && |d.options| % 4 == 0
    && d.sourcePort < 65536 && d.destinationPort < 65536 && d.udpChecksum < 65536
    && TotalLength(d) < 65536
  }

  function UdpPart(d: Datagram): seq<byte> {
    Put16(d.sourcePort) + Put16(d.destinationPort) + Put16(8 + |d.body|) + Put16(d.udpChecksum)
    + (d.body + d.slack)
  }

  /** Version and header length, service, total length, identification, flags, time to live, protocol,
      checksum. */
  function FirstWords(d: Datagram): seq<byte> {
    [Put8(69 + |d.options| / 4), d.service] + Put16(TotalLength(d)) + Put16(d.id)
    + Put16(d.fragment) + [d.ttl, UDP] + Put16(d.checksum)
  }

  function IpHeader(d: Datagram): seq<byte> {
    FirstWords(d) + (d.addresses + d.options)
  }

  function Packet(d: Datagram, padding: seq<byte>): seq<byte> {
    IpHeader(d) + UdpPart(d) + padding
  }

  function ParserOf(d: Datagram): Option<Protocol> {
    if d.sourcePort == 5353 || d.destinationPort == 5353 then Some(Mdns)
    else if d.sourcePort in {67, 68} || d.destinationPort in {67, 68} then Some(Dhcp)
    else None
  }

  lemma HeaderIsRead(p: seq<byte>, d: Datagram)
    requires GoodDatagram(d) && Stands(p, 0, FirstWords(d))
    ensures p[0] / 16 == 4 && p[0] % 16 * 4 == 20 + |d.options|
    ensures U16At(p, 2) == TotalLength(d) && p[9] == UDP && (IsFragment(p) <==> Fragmented(d))
  {
    var w := p[0..12];
    assert p[0] == w[0] && p[2] == w[2] && p[3] == w[3] && p[6] == w[6] && p[7] == w[7] && p[9] == w[9];
    HeaderWords(|d.options|);
  }

  lemma HeaderWords(options: nat)
    requires options <= 40 && options % 4 == 0
    ensures (69 + options / 4) / 16 == 4 && (69 + options / 4) % 16 * 4 == 20 + options
  {
  }

  lemma UdpIsRead(udp: seq<byte>, d: Datagram)
    requires GoodDatagram(d) && udp == UdpPart(d)
    ensures |udp| == 8 + |d.body| + |d.slack| && udp[8..8 + |d.body|] == d.body
    ensures U16At(udp, 0) == d.sourcePort && U16At(udp, 2) == d.destinationPort && U16At(udp, 4) == 8 + |d.body|
  {
    var a, b, c, e := Put16(d.sourcePort), Put16(d.destinationPort), Put16(8 + |d.body|), Put16(d.udpChecksum);
    assert udp[0..|udp|] == udp;
    StandsSplit(udp, 0, a + b + c + e, d.body + d.slack, 8);
    StandsSplit(udp, 8, d.body, d.slack, 8 + |d.body|);
    StandsSplit(udp, 0, a + b + c, e, 6);
    StandsSplit(udp, 0, a + b, c, 4);
    StandsSplit(udp, 0, a, b, 2);
    hide U16At;
    Put16At(udp, 0, d.sourcePort);
    Put16At(udp, 2, d.destinationPort);
    Put16At(udp, 4, 8 + |d.body|);
  }

  /** An unfragmented datagram gives up exactly its UDP body, whatever its IP options, whatever slack there
      is behind the UDP length and whatever padding follows; a fragment gives nothing. */
  lemma DatagramIsDecoded(d: Datagram, padding: seq<byte>)
    requires GoodDatagram(d)
    ensures DecodeIpv4Udp(Packet(d, padding))
         == if Fragmented(d) || ParserOf(d).None? then None else Some(Decoded(ParserOf(d).value, d.body))
  {
    var p := Packet(d, padding);
    var header, total := 20 + |d.options|, TotalLength(d);
    UdpIsRead(UdpPart(d), d);
    assert p[header..total] == UdpPart(d);
    assert p[0..12] == FirstWords(d);
    hide U16At, UdpPart, FirstWords, IsFragment, Packet;
    HeaderIsRead(p, d);
  }

  lemma FrameIsRead(destination: seq<byte>, source: seq<byte>, tag: Option<Tag>, protocol: nat, payload: seq<byte>)
    requires |destination| == 6 && |source| == 6 && protocol < 65536
    requires protocol != VLAN && protocol != SERVICE_VLAN && (tag.Some? ==> GoodTag(tag.value))
    requires |Frame(destination, source, tag, protocol, payload)| <= MAX_CAPTURE
    ensures DecodeEthernet(Frame(destination, source, tag, protocol, payload))
         == DecodePayload(destination, protocol, payload)
  {
    var f := Frame(destination, source, tag, protocol, payload);
    assert f[..6] == destination;
    hide DecodePayload, U16At, Put16;
    Put16Size(protocol);
    if tag.None? {
      assert f[12..14] == Put16(protocol) && f[14..] == payload;
      Put16At(f, 12, protocol);
    } else {
      Put16Size(tag.value.kind);
      Put16Size(tag.value.control);
      assert f[12..14] == Put16(tag.value.kind) && f[16..18] == Put16(protocol) && f[18..] == payload;
      Put16At(f, 12, tag.value.kind);
      Put16At(f, 16, protocol);
    }
  }

  lemma Put16Size(n: nat)
    ensures |Put16(n)| == 2
  {
  }

  /** The whole way: a UDP datagram in an Ethernet frame, tagged or not, with or without IP options,
      slack and trailing padding, reaches its parser as exactly its body, and a fragment none. */
  lemma BodyReachesParser(
    destination: seq<byte>, source: seq<byte>, tag: Option<Tag>, d: Datagram, padding: seq<byte>)
    requires |destination| == 6 && |source| == 6 && (tag.Some? ==> GoodTag(tag.value)) && GoodDatagram(d)
    requires |Frame(destination, source, tag, IP, Packet(d, padding))| <= MAX_CAPTURE
    ensures DecodeEthernet(Frame(destination, source, tag, IP, Packet(d, padding)))
         == if Fragmented(d) || ParserOf(d).None? then None else Some(Decoded(ParserOf(d).value, d.body))
  {
    hide DecodeEthernet, DecodeIpv4Udp, Frame, Packet;
    FrameIsRead(destination, source, tag, IP, Packet(d, padding));
    DatagramIsDecoded(d, padding);
  }

  /** The other payloads pass unchanged, and a CDP payload loses its SNAP header. */
  lemma PayloadReachesParser(
    destination: seq<byte>, source: seq<byte>, tag: Option<Tag>, payload: seq<byte>, length: nat)
    requires |destination| == 6 && |source| == 6 && (tag.Some? ==> GoodTag(tag.value)) && length <= 1500
    requires |payload| <= MAX_CAPTURE - 26
    ensures DecodeEthernet(Frame(destination, source, tag, LLDP, payload)) == Some(Decoded(Lldp, payload))
    ensures DecodeEthernet(Frame(destination, source, tag, ARP, payload)) == Some(Decoded(Arp, payload))
    ensures DecodeEthernet(Frame(CDP_DESTINATION, source, tag, length, CDP_SNAP + payload)) == Some(Decoded(Cdp, payload))
  {
    hide DecodeEthernet, DecodeIpv4Udp;
    FrameIsRead(destination, source, tag, LLDP, payload);
    FrameIsRead(destination, source, tag, ARP, payload);
    FrameIsRead(CDP_DESTINATION, source, tag, length, CDP_SNAP + payload);
    assert (CDP_SNAP + payload)[|CDP_SNAP|..] == payload;
  }
}
