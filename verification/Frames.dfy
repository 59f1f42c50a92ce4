/**
 * Frames as they are written: an Ethernet header with or without a tag, an IPv4
 * header with its options, a TCP segment, a UDP datagram or something else, and padding.
 */
module Frames {
  import opened Text
  import opened Ipv4
  import opened Checksum
  import opened DnsWire
  import Net = DnsEncoding
  import opened Indicators
  import opened Capture

  // ---- TCP and UDP ----

  datatype WireTcp = WireTcp(
    sourcePort: U16, destinationPort: U16, sequence: U32, acknowledgment: U32, flags: U16, window: U16,
    checksum: U16, urgent: U16, options: seq<U8>, payload: seq<U8>)

  predicate WritableOptions(options: seq<U8>) { |options| % 4 == 0 && |options| <= 40 }

  predicate WritableTcp(t: WireTcp) { WritableOptions(t.options) && t.flags < 512 }

  /** The length of the header in words, the flags, and nothing in the reserved bits. */
  function TcpHeader(t: WireTcp): (b: seq<U8>)
    requires WritableTcp(t)
    ensures |b| == 20
  {
    Net.Put16(t.sourcePort) + Net.Put16(t.destinationPort) + Net.Put32(t.sequence) + Net.Put32(t.acknowledgment)
    + [(5 + |t.options| / 4) * 16 + t.flags / 256, t.flags % 256] + Net.Put16(t.window) + Net.Put16(t.checksum) + Net.Put16(t.urgent)
  }

  function EncodeTcp(t: WireTcp): seq<U8>
    requires WritableTcp(t)
  {
    TcpHeader(t) + t.options + t.payload
  }

  lemma LengthNibble(options: seq<U8>, flags: U16)
    requires WritableOptions(options) && flags < 512
    ensures var words := 5 + |options| / 4;
            5 <= words <= 15 && 4 * words == 20 + |options|
            && words * 16 + flags / 256 < 256 && (words * 16 + flags / 256) / 16 == words && (words * 16 + flags / 256) % 2 == flags / 256
  {}

  lemma TcpHeaderStands(t: WireTcp, back: seq<U8>)
    requires WritableTcp(t)
    ensures var bytes := TcpHeader(t) + back;
            && bytes[0..2] == Net.Put16(t.sourcePort) && bytes[2..4] == Net.Put16(t.destinationPort)
            && bytes[4..8] == Net.Put32(t.sequence) && bytes[8..12] == Net.Put32(t.acknowledgment)
            && bytes[12] == (5 + |t.options| / 4) * 16 + t.flags / 256 && bytes[13] == t.flags % 256
            && bytes[14..16] == Net.Put16(t.window) && bytes[16..18] == Net.Put16(t.checksum) && bytes[18..20] == Net.Put16(t.urgent)
  {
    hide Net.Put16, Net.Put32;
  }

  /** A written segment reads back, every field of it. */
  lemma TcpReadsBack(t: WireTcp)
    requires WritableTcp(t)
    ensures ParseTcpSegment(EncodeTcp(t)) ==
            Some(TcpSegment(t.sourcePort, t.destinationPort, t.sequence, t.acknowledgment, 5 + |t.options| / 4, t.flags, t.window,
                            t.checksum, t.urgent, |t.payload|, t.options))
  {
    hide Net.Put16, Net.Put32, Be16, Be32, TcpHeader;
    var bytes := EncodeTcp(t);
    assert bytes == TcpHeader(t) + (t.options + t.payload);
    TcpHeaderStands(t, t.options + t.payload);
    LengthNibble(t.options, t.flags);
    Net.Put16Reads(bytes, 0, t.sourcePort); Net.Put16Reads(bytes, 2, t.destinationPort);
    Net.Put32Reads(bytes, 4, t.sequence); Net.Put32Reads(bytes, 8, t.acknowledgment);
    Net.Put16Reads(bytes, 14, t.window); Net.Put16Reads(bytes, 16, t.checksum); Net.Put16Reads(bytes, 18, t.urgent);
    assert bytes[20..20 + |t.options|] == t.options;
  }

  datatype WireUdp = WireUdp(sourcePort: U16, destinationPort: U16, checksum: U16, payload: seq<U8>)

  predicate WritableUdp(u: WireUdp) { 8 + |u.payload| < 0x1_0000 }

  function UdpHeader(u: WireUdp): (b: seq<U8>)
    requires WritableUdp(u)
    ensures |b| == 8
  {
    Net.Put16(u.sourcePort) + Net.Put16(u.destinationPort) + Net.Put16(8 + |u.payload|) + Net.Put16(u.checksum)
  }

  function EncodeUdp(u: WireUdp): seq<U8>
    requires WritableUdp(u)
  {
    UdpHeader(u) + u.payload
  }

  lemma UdpReadsBack(u: WireUdp)
    requires WritableUdp(u)
    ensures ParseUdpDatagram(EncodeUdp(u)) == Some(UdpDatagram(u.sourcePort, u.destinationPort, 8 + |u.payload|, u.checksum, |u.payload|))
  {
    hide Net.Put16, Be16;
    var bytes := EncodeUdp(u);
    assert bytes[0..2] == Net.Put16(u.sourcePort) && bytes[2..4] == Net.Put16(u.destinationPort);
    assert bytes[4..6] == Net.Put16(8 + |u.payload|) && bytes[6..8] == Net.Put16(u.checksum);
    Net.Put16Reads(bytes, 0, u.sourcePort); Net.Put16Reads(bytes, 2, u.destinationPort);
    Net.Put16Reads(bytes, 4, 8 + |u.payload|); Net.Put16Reads(bytes, 6, u.checksum);
  }

  // ---- IPv4 ----

  /** What the header carries besides its lengths. */
  datatype WireIp = WireIp(
    service: U8, identification: U16, flagsFragment: U16, ttl: U8, protocol: U8, checksum: U16,
    source: U32, destination: U32, options: seq<U8>)

  predicate WritableIp(ip: WireIp, payload: seq<U8>) { WritableOptions(ip.options) && 20 + |ip.options| + |payload| < 0x1_0000 }

  function IpHeader(ip: WireIp, payload: seq<U8>): (b: seq<U8>)
    requires WritableIp(ip, payload)
    ensures |b| == 20
  {
    [64 + 5 + |ip.options| / 4, ip.service] + Net.Put16(20 + |ip.options| + |payload|) + Net.Put16(ip.identification) + Net.Put16(ip.flagsFragment)
    + [ip.ttl, ip.protocol] + Net.Put16(ip.checksum) + Net.Put32(ip.source) + Net.Put32(ip.destination)
  }

  function EncodeIp(ip: WireIp, payload: seq<U8>): seq<U8>
    requires WritableIp(ip, payload)
  {
    IpHeader(ip, payload) + ip.options + payload
  }

  lemma IpHeaderStands(ip: WireIp, payload: seq<U8>, back: seq<U8>)
    requires WritableIp(ip, payload)
    ensures var bytes := IpHeader(ip, payload) + back;
            && bytes[0] == 64 + 5 + |ip.options| / 4 && bytes[2..4] == Net.Put16(20 + |ip.options| + |payload|)
            && bytes[4..6] == Net.Put16(ip.identification) && bytes[6..8] == Net.Put16(ip.flagsFragment)
            && bytes[8] == ip.ttl && bytes[9] == ip.protocol && bytes[10..12] == Net.Put16(ip.checksum)
            && bytes[12..16] == Net.Put32(ip.source) && bytes[16..20] == Net.Put32(ip.destination)
  {
    hide Net.Put16, Net.Put32;
  }

  lemma VersionAndLength(options: seq<U8>)
    requires WritableOptions(options)
    ensures var first := 64 + 5 + |options| / 4; first < 256 && first / 16 == 4 && first % 16 * 4 == 20 + |options| && first % 16 >= 5
  {}

  /** The decoded header of a written packet. */
  function IpRead(ip: WireIp, payload: seq<U8>): Ipv4Packet
    requires WritableIp(ip, payload)
  {
    Ipv4Packet(20 + |ip.options|, 20 + |ip.options| + |payload|, ip.identification, ip.flagsFragment, ip.ttl, ip.protocol,
               ip.checksum, ip.source, ip.destination, InternetChecksum(IpHeader(ip, payload) + ip.options, 0) == 0, |payload|)
  }

  /** A written packet reads back, every field of it, and the bytes behind its header are its payload, whatever padding follows. */
  lemma IpReadsBack(ip: WireIp, payload: seq<U8>, padding: seq<U8>)
    requires WritableIp(ip, payload)
    ensures var bytes := EncodeIp(ip, payload) + padding;
            && ParseIpv4Packet(bytes) == Some(IpRead(ip, payload))
            && Slice(bytes, 20 + |ip.options|, |payload|) == Some(payload)
  {
    hide Net.Put16, Net.Put32, Be16, Be32, IpHeader, InternetChecksum;
    var header := IpHeader(ip, payload);
    var bytes := EncodeIp(ip, payload) + padding;
    assert bytes == header + (ip.options + payload + padding);
    IpHeaderStands(ip, payload, ip.options + payload + padding);
    VersionAndLength(ip.options);
    Net.Put16Reads(bytes, 2, 20 + |ip.options| + |payload|); Net.Put16Reads(bytes, 4, ip.identification);
    Net.Put16Reads(bytes, 6, ip.flagsFragment); Net.Put16Reads(bytes, 10, ip.checksum);
    Net.Put32Reads(bytes, 12, ip.source); Net.Put32Reads(bytes, 16, ip.destination);
    assert bytes[..20 + |ip.options|] == header + ip.options;
    assert bytes[20 + |ip.options|..20 + |ip.options| + |payload|] == payload;
  }

  /** The bytes that the header accounts for inside the capture: what it states, or what was captured. */
  function Reach(stated: nat, captured: nat): nat { if stated <= captured then stated else captured }

  /** A header is accepted exactly when it is version 4, holds at least five words, and lies within both the capture and the stated length. */
  lemma IpAcceptedIff(bytes: seq<U8>)
    ensures ParseIpv4Packet(bytes).Some? <==>
            |bytes| >= 20 && bytes[0] / 16 == 4 && bytes[0] % 16 >= 5 && 4 * (bytes[0] % 16) <= |bytes| && 4 * (bytes[0] % 16) <= Be16(bytes, 2)
    ensures ParseIpv4Packet(bytes).Some? ==>
              var ip := ParseIpv4Packet(bytes).value;
              ip.headerLength == 4 * (bytes[0] % 16) && ip.totalLength == Reach(Be16(bytes, 2), |bytes|)
  {
    hide Be16, Be32, InternetChecksum;
  }

  lemma SegmentsAcceptedIff(bytes: seq<U8>)
    ensures ParseTcpSegment(bytes).Some? <==> |bytes| >= 20 && bytes[12] / 16 >= 5 && 4 * (bytes[12] / 16) <= |bytes|
    ensures ParseUdpDatagram(bytes).Some? <==> |bytes| >= 8 && Be16(bytes, 4) >= 8
    ensures ParseUdpDatagram(bytes).Some? ==> ParseUdpDatagram(bytes).value.length == Reach(Be16(bytes, 4), |bytes|)
    ensures ParseEthernet(bytes).Some? <==> |bytes| >= 14 && (Be16(bytes, 12) in {0x8100, 0x88a8} ==> |bytes| >= 18)
  {
    hide Be16, Be32;
  }

  // ---- Ethernet ----

  /** Two addresses, and a tag or none. */
  datatype WireEthernet = WireEthernet(destination: seq<U8>, source: seq<U8>, tag: Option<(U16, U16)>)

  predicate WritableEthernet(e: WireEthernet) {
    |e.destination| == 6 && |e.source| == 6 && (e.tag.Some? ==> e.tag.value.0 == 0x8100 || e.tag.value.0 == 0x88a8)
  }

  function EthernetHeader(e: WireEthernet, etherType: U16): (b: seq<U8>)
    requires WritableEthernet(e)
    ensures |b| == if e.tag.Some? then 18 else 14
  {
    e.destination + e.source + (if e.tag.Some? then Net.Put16(e.tag.value.0) + Net.Put16(e.tag.value.1) else []) + Net.Put16(etherType)
  }

  /** The type behind a tag is the one that counts. */
  lemma EthernetReadsBack(e: WireEthernet, etherType: U16, payload: seq<U8>)
    requires WritableEthernet(e) && etherType != 0x8100 && etherType != 0x88a8
    ensures var header := EthernetHeader(e, etherType);
            && ParseEthernet(header + payload) == Some(EthernetFrame(e.destination, e.source, etherType, |header|))
            && Slice(header + payload, |header|, |payload|) == Some(payload)
  {
    hide Net.Put16, Be16;
    var bytes := EthernetHeader(e, etherType) + payload;
    var n := |EthernetHeader(e, etherType)|;
    assert bytes[..6] == e.destination && bytes[6..12] == e.source;
    assert bytes[n..n + |payload|] == payload;
    if e.tag.Some? {
      assert bytes[12..14] == Net.Put16(e.tag.value.0) && bytes[16..18] == Net.Put16(etherType);
      Net.Put16Reads(bytes, 12, e.tag.value.0);
      Net.Put16Reads(bytes, 16, etherType);
    } else {
      assert bytes[12..14] == Net.Put16(etherType);
      Net.Put16Reads(bytes, 12, etherType);
    }
  }

  // ---- whole frames ----

  datatype Transport = TcpPart(tcp: WireTcp) | UdpPart(udp: WireUdp) | OtherPart(bytes: seq<U8>)

  predicate WritableTransport(t: Transport, protocol: U8) {
    match t
    case TcpPart(tcp) => WritableTcp(tcp) && protocol == 6
    case UdpPart(udp) => WritableUdp(udp) && protocol == 17
    case OtherPart(_) => protocol != 6 && protocol != 17
  }

  function EncodeTransport(t: Transport, protocol: U8): seq<U8>
    requires WritableTransport(t, protocol)
  {
    match t
    case TcpPart(tcp) => EncodeTcp(tcp)
    case UdpPart(udp) => EncodeUdp(udp)
    case OtherPart(bytes) => bytes
  }

  datatype Frame = Frame(ethernet: WireEthernet, ip: WireIp, transport: Transport, padding: seq<U8>)

  predicate WritableFrame(f: Frame) {
    && WritableEthernet(f.ethernet) && WritableTransport(f.transport, f.ip.protocol)
    && WritableIp(f.ip, EncodeTransport(f.transport, f.ip.protocol))
  }

  function EncodeFrame(f: Frame): seq<U8>
    requires WritableFrame(f)
  {
    EthernetHeader(f.ethernet, 0x0800) + (EncodeIp(f.ip, EncodeTransport(f.transport, f.ip.protocol)) + f.padding)
  }

  /** A datagram to or from port 53 whose payload reads as a message carries it. */
  function DnsOf(t: Transport): Option<DnsMessage> {
    if t.UdpPart? && (t.udp.sourcePort == 53 || t.udp.destinationPort == 53) && MessageAt(t.udp.payload).Some?
    then Some(MessageAt(t.udp.payload).value.0) else None
  }

  lemma TransportDecodes(md: Metadata, t: Transport, protocol: U8)
    requires WritableTransport(t, protocol) && md.tcp.None? && md.udp.None? && md.dns.None?
    ensures var out := DecodeTransport(md, protocol, EncodeTransport(t, protocol));
            && out.ethernet == md.ethernet && out.ipv4 == md.ipv4 && out.dns == DnsOf(t)
            && (if t.TcpPart? then out.tcp == ParseTcpSegment(EncodeTcp(t.tcp)) && out.tcp.Some? && out.tcp.value.sourcePort == t.tcp.sourcePort
                                   && out.tcp.value.destinationPort == t.tcp.destinationPort else out.tcp == None)
            && (if t.UdpPart? then out.udp == ParseUdpDatagram(EncodeUdp(t.udp)) && out.udp.Some? && out.udp.value.sourcePort == t.udp.sourcePort
                                   && out.udp.value.destinationPort == t.udp.destinationPort else out.udp == None)
  {
    hide ParseTcpSegment, ParseUdpDatagram, EncodeTcp, MessageAt, UdpHeader;
    match t
    case TcpPart(tcp) => TcpReadsBack(tcp);
    case UdpPart(udp) => UdpReadsBack(udp); PayloadStands(udp);
    case OtherPart(_) =>
  }

  lemma PayloadStands(u: WireUdp)
    requires WritableUdp(u)
    ensures Slice(EncodeUdp(u), 8, |u.payload|) == Some(u.payload)
  {
    hide UdpHeader;
    assert EncodeUdp(u)[8..8 + |u.payload|] == u.payload;
  }

  /** A written frame decodes to its own headers, layer by layer. */
  lemma FrameDecodes(f: Frame)
    requires WritableFrame(f)
    ensures var md := DecodePacket(EncodeFrame(f), 1);
            var t := f.transport;
            && md.ethernet == Some(EthernetFrame(f.ethernet.destination, f.ethernet.source, 0x0800, |EthernetHeader(f.ethernet, 0x0800)|))
            && md.ipv4 == Some(IpRead(f.ip, EncodeTransport(t, f.ip.protocol)))
            && md.dns == DnsOf(t)
            && (if t.TcpPart? then md.tcp == ParseTcpSegment(EncodeTcp(t.tcp)) && md.tcp.Some? && md.tcp.value.sourcePort == t.tcp.sourcePort
                                   && md.tcp.value.destinationPort == t.tcp.destinationPort else md.tcp == None)
            && (if t.UdpPart? then md.udp == ParseUdpDatagram(EncodeUdp(t.udp)) && md.udp.Some? && md.udp.value.sourcePort == t.udp.sourcePort
                                   && md.udp.value.destinationPort == t.udp.destinationPort else md.udp == None)
  {
    hide ParseEthernet, ParseIpv4Packet, DecodeTransport, EncodeIp, EthernetHeader, ParseTcpSegment, ParseUdpDatagram, EncodeTcp, EncodeUdp, DnsOf,
      InternetChecksum, IpHeader, WritableEthernet, WritableTransport, WritableIp;
    var payload := EncodeTransport(f.transport, f.ip.protocol);
    var ipBytes := EncodeIp(f.ip, payload) + f.padding;
    var eth := EthernetFrame(f.ethernet.destination, f.ethernet.source, 0x0800, |EthernetHeader(f.ethernet, 0x0800)|);
    EthernetReadsBack(f.ethernet, 0x0800, ipBytes);
    IpReadsBack(f.ip, payload, f.padding);
    TransportDecodes(NO_METADATA.(ethernet := Some(eth), ipv4 := Some(IpRead(f.ip, payload))), f.transport, f.ip.protocol);
  }

  /** The indicator match sees the frame's own source and destination, in this order. */
  lemma FrameIsObserved(f: Frame)
    requires WritableFrame(f)
    ensures ObservedIn(DecodePacket(EncodeFrame(f), 1)).ipv4 == Some((f.ip.source, f.ip.destination))
    ensures forall n :: n in ObservedIn(DecodePacket(EncodeFrame(f), 1)).names <==>
              DnsOf(f.transport).Some?
              && (|| (exists q :: q in DnsOf(f.transport).value.questions && q.name == n)
                  || (n != "" && exists r :: r in DnsOf(f.transport).value.answers && r.name == n))
  {
    hide DecodePacket, EncodeFrame, WritableFrame, DnsOf, ParseTcpSegment, ParseUdpDatagram, InternetChecksum, IpHeader;
    FrameDecodes(f);
  }
}
