/** Packet headers and the capture file: who owns which bytes. */
module Capture {
  import opened Text
  import opened Ipv4
  import opened Checksum
  import opened DnsWire
  import opened Indicators
  import opened DomainNames
  import opened IndexSpec

  datatype EthernetFrame = EthernetFrame(destination: seq<U8>, source: seq<U8>, etherType: U16, headerLength: nat)

  datatype Ipv4Packet = Ipv4Packet(
    headerLength: nat, totalLength: nat, identification: U16, flagsFragment: U16, ttl: U8, protocol: U8,
    headerChecksum: U16, source: U32, destination: U32, checksumValid: bool, payloadLength: nat)

  datatype TcpSegment = TcpSegment(
    sourcePort: U16, destinationPort: U16, sequence: U32, acknowledgment: U32, dataOffset: nat,
    flags: U16, window: U16, checksum: U16, urgent: U16, payloadLength: nat, options: seq<U8>)

  datatype UdpDatagram = UdpDatagram(sourcePort: U16, destinationPort: U16, length: nat, checksum: U16, payloadLength: nat)

  datatype Metadata = Metadata(
    ethernet: Option<EthernetFrame>, ipv4: Option<Ipv4Packet>, tcp: Option<TcpSegment>,
    udp: Option<UdpDatagram>, dns: Option<DnsMessage>)

  const NO_METADATA := Metadata(None, None, None, None, None)

  function ParseEthernet(bytes: seq<U8>): Option<EthernetFrame> {
    if |bytes| < 14 then None
    else
      var tag := Be16(bytes, 12);
      if tag == 0x8100 || tag == 0x88a8 then
        if |bytes| < 18 then None else Some(EthernetFrame(bytes[..6], bytes[6..12], Be16(bytes, 16), 18))
      else Some(EthernetFrame(bytes[..6], bytes[6..12], tag, 14))
  }

  /** Version and header length come from the first byte; a total length beyond the capture is cut to it (and still fits 16 bits). */
  function ParseIpv4Packet(bytes: seq<U8>): Option<Ipv4Packet> {
    if |bytes| < 20 then None
    else
      var version, ihl := bytes[0] / 16, bytes[0] % 16;
      var headerLength: nat := ihl * 4;
      if version != 4 || ihl < 5 || headerLength > |bytes| then None
      else
        var stated: nat := Be16(bytes, 2);
        if stated < headerLength then None
        else
          var total: nat := if stated > |bytes| then |bytes| else stated;
          Some(Ipv4Packet(headerLength, total, Be16(bytes, 4), Be16(bytes, 6), bytes[8], bytes[9], Be16(bytes, 10),
                          Be32(bytes, 12), Be32(bytes, 16), InternetChecksum(bytes[..headerLength], 0) == 0,
                          total - headerLength))
  }

  function ParseTcpSegment(bytes: seq<U8>): Option<TcpSegment> {
    if |bytes| < 20 then None
    else
      var dataOffset := bytes[12] / 16;
      var headerLength: nat := dataOffset * 4;
      if dataOffset < 5 || headerLength > |bytes| then None
      else Some(TcpSegment(Be16(bytes, 0), Be16(bytes, 2), Be32(bytes, 4), Be32(bytes, 8), dataOffset,
                           ((bytes[12] % 2) as int) * 256 + bytes[13], Be16(bytes, 14), Be16(bytes, 16), Be16(bytes, 18),
                           |bytes| - headerLength, bytes[20..headerLength]))
  }

  function ParseUdpDatagram(bytes: seq<U8>): Option<UdpDatagram> {
    if |bytes| < 8 then None
    else
      var stated: nat := Be16(bytes, 4);
      if stated < 8 then None
      else
        var length: nat := if stated > |bytes| then |bytes| else stated;
        Some(UdpDatagram(Be16(bytes, 0), Be16(bytes, 2), length, Be16(bytes, 6), length - 8))
  }

  /** A part of a view, when it lies inside. */
  function Slice(bytes: seq<U8>, off: nat, length: nat): Option<seq<U8>> {
    if HasBytes(bytes, off, length) then Some(bytes[off..off + length]) else None
  }

  function DecodeTransport(md: Metadata, protocol: U8, transport: seq<U8>): Metadata {
    if protocol == 6 then md.(tcp := ParseTcpSegment(transport))
    else if protocol == 17 then
      match ParseUdpDatagram(transport)
      case None => md
      case Some(udp) =>
        var md' := md.(udp := Some(udp));
        if udp.sourcePort != 53 && udp.destinationPort != 53 then md'
        else match Slice(transport, 8, udp.payloadLength)
          case None => md'
          case Some(payload) => md'.(dns := if MessageAt(payload).None? then None else Some(MessageAt(payload).value.0))
    else md
  }

  /** Each layer is decoded from the bytes that the layer below hands over. */
  function DecodePacket(bytes: seq<U8>, linkType: U32): Metadata {
    if linkType != 1 then NO_METADATA
    else match ParseEthernet(bytes)
      case None => NO_METADATA
      case Some(eth) =>
        var md := NO_METADATA.(ethernet := Some(eth));
        if eth.etherType != 0x0800 then md
        else match Slice(bytes, eth.headerLength, if eth.headerLength <= |bytes| then |bytes| - eth.headerLength else 0)
          case None => md
          case Some(ipBytes) =>
            match ParseIpv4Packet(ipBytes)
            case None => md
            case Some(ip) =>
              var md' := md.(ipv4 := Some(ip));
              match Slice(ipBytes, ip.headerLength, ip.payloadLength)
              case None => md'
              case Some(transport) => DecodeTransport(md', ip.protocol, transport)
  }

  /** The parts that the decoded layers claim fit into the capture and into each other. */
  predicate LayersFit(captured: nat, md: Metadata) {
    && (md.ipv4.Some? ==> md.ethernet.Some?)
    && (md.tcp.Some? || md.udp.Some? ==> md.ipv4.Some?)
    && !(md.tcp.Some? && md.udp.Some?)
    && (md.dns.Some? ==> md.udp.Some?)
    && (md.ethernet.Some? ==> md.ethernet.value.headerLength <= captured)
    && (md.ipv4.Some? ==>
          var ip := md.ipv4.value;
          20 <= ip.headerLength <= 60 && ip.totalLength == ip.headerLength + ip.payloadLength
          && md.ethernet.value.headerLength + ip.totalLength <= captured)
    && (md.tcp.Some? ==> 4 * md.tcp.value.dataOffset + md.tcp.value.payloadLength == md.ipv4.value.payloadLength
                         && 20 + |md.tcp.value.options| == 4 * md.tcp.value.dataOffset)
    && (md.udp.Some? ==> 8 + md.udp.value.payloadLength == md.udp.value.length <= md.ipv4.value.payloadLength)
  }

  lemma Ipv4Fits(bytes: seq<U8>)
    requires ParseIpv4Packet(bytes).Some?
    ensures var ip := ParseIpv4Packet(bytes).value;
            20 <= ip.headerLength <= 60 && ip.totalLength == ip.headerLength + ip.payloadLength <= |bytes|
  {
    hide Be32, InternetChecksum;
  }

  /** Decoding conserves bytes, layer by layer, for every capture. */
  lemma DecodingConserves(bytes: seq<U8>, linkType: U32)
    ensures LayersFit(|bytes|, DecodePacket(bytes, linkType))
  {
    hide Be16, Be32, MessageAt, ParseIpv4Packet;
    if linkType == 1 && ParseEthernet(bytes).Some? {
      var eth := ParseEthernet(bytes).value;
      if eth.etherType == 0x0800 {
        var ipBytes := bytes[eth.headerLength..];
        assert bytes[eth.headerLength..eth.headerLength + (|bytes| - eth.headerLength)] == ipBytes;
        if ParseIpv4Packet(ipBytes).Some? { Ipv4Fits(ipBytes); }
      }
    }
  }

  /** A decoded IPv4 header validates exactly when its words, checksum included, sum to a multiple of 65535. */
  lemma HeaderValidIff(bytes: seq<U8>)
    requires ParseIpv4Packet(bytes).Some?
    ensures var ip := ParseIpv4Packet(bytes).value;
            ip.headerLength <= |bytes| && (ip.checksumValid <==> WordSum(bytes[..ip.headerLength]) % 0xffff == 0)
  {
    hide Be16, Be32, WordSum, Fold, InternetChecksum;
    var ip := ParseIpv4Packet(bytes).value;
    var header := bytes[..ip.headerLength];
    WordSumBound(header);
    ZeroIffDivisible(header, 0);
    FirstByteCounts(header);
  }

  lemma {:induction false} FirstByteCounts(bytes: seq<U8>)
    requires bytes != []
    ensures WordSum(bytes) >= bytes[0]
  {
    var n := |bytes|;
    if n % 2 == 1 { if n > 1 { FirstByteCounts(bytes[..n - 1]); } } else { if n > 2 { FirstByteCounts(bytes[..n - 2]); } }
  }

  // ---- capture files ----

  /** Seconds and nanoseconds below one second. */
  datatype Timestamp = Timestamp(seconds: int, nanos: int)

  const NANOS := 1_000_000_000

  function Normalized(seconds: int, nanos: int): Timestamp { Timestamp(seconds + nanos / NANOS, nanos % NANOS) }

  /** The two carry loops. */
  method NormalizeTimestamp(seconds: int, nanos: int) returns (t: Timestamp)
    ensures t == Normalized(seconds, nanos)
  {
    var s, n := seconds, nanos;
    while n >= NANOS
      invariant n <= nanos && Normalized(s, n) == Normalized(seconds, nanos)
      decreases n
    {
      CarrySecond(s, n, 1);
      s, n := s + 1, n - NANOS;
    }
    while n < 0
      invariant n < NANOS && Normalized(s, n) == Normalized(seconds, nanos)
      decreases -n
    {
      CarrySecond(s, n, -1);
      s, n := s - 1, n + NANOS;
    }
    return Timestamp(s, n);
  }

  lemma CarrySecond(s: int, n: int, k: int)
    requires k == 1 || k == -1
    ensures Normalized(s + k, n - k * NANOS) == Normalized(s, n)
  {
    QuotientUnique(n - k * NANOS, NANOS, n / NANOS - k, n % NANOS);
  }

  /** The instant is kept, and only one time stamp below a second of nanoseconds names it. */
  lemma NormalizedIsTheInstant(seconds: int, nanos: int, t: Timestamp)
    ensures Normalized(seconds, nanos) == t <==> 0 <= t.nanos < NANOS && t.seconds * NANOS + t.nanos == seconds * NANOS + nanos
  {
    var r := Normalized(seconds, nanos);
    assert nanos == NANOS * (nanos / NANOS) + nanos % NANOS;
    if 0 <= t.nanos < NANOS && t.seconds * NANOS + t.nanos == seconds * NANOS + nanos {
      QuotientUnique(nanos, NANOS, t.seconds - seconds, t.nanos);
    }
  }

  /** The fraction of a record counts nanoseconds, or microseconds. */
  function StampOf(nanoseconds: bool, seconds: U32, fraction: U32): Timestamp {
    Normalized(seconds, if nanoseconds then fraction else fraction * 1000)
  }

  datatype PcapPacket = PcapPacket(
    seconds: U32, fraction: U32, originalLength: U32, time: Timestamp, payload: seq<U8>, metadata: Metadata)

  /** The packet of a record: its time normalized and its payload decoded. */
  function MakePacket(h: PcapHeader, seconds: U32, fraction: U32, original: U32, payload: seq<U8>): PcapPacket {
    PcapPacket(seconds, fraction, original, StampOf(h.nanoseconds, seconds, fraction), payload, DecodePacket(payload, h.linkType))
  }

  predicate Made(h: PcapHeader, p: PcapPacket) { p == MakePacket(h, p.seconds, p.fraction, p.originalLength, p.payload) }

  type I32 = x: int | -0x8000_0000 <= x < 0x8000_0000

  datatype PcapHeader = PcapHeader(
    littleEndian: bool, nanoseconds: bool, major: U16, minor: U16, zone: I32, snapLength: U32, linkType: U32)

  datatype PcapFile = PcapFile(header: PcapHeader, packets: seq<PcapPacket>, recordsComplete: bool)

  /** The signed reading of a 32-bit word. */
  function Signed(w: U32): I32 { if w < 0x8000_0000 then w else w - 0x1_0000_0000 }

  function Read16(le: bool, bytes: seq<U8>, off: nat): U16
    requires off + 2 <= |bytes|
  {
    if le then (var b0: int, b1: int := bytes[off], bytes[off + 1]; b0 + 0x100 * b1) else Be16(bytes, off)
  }

  function Le32(bytes: seq<U8>, off: nat): U32
    requires off + 4 <= |bytes|
  {
    var b0: int, b1: int, b2: int, b3: int := bytes[off], bytes[off + 1], bytes[off + 2], bytes[off + 3];
    b0 + 0x100 * b1 + 0x1_0000 * b2 + 0x100_0000 * b3
  }

  function Read32(le: bool, bytes: seq<U8>, off: nat): U32
    requires off + 4 <= |bytes|
  {
    if le then Le32(bytes, off) else Be32(bytes, off)
  }

  /** Byte order and resolution, from the first four bytes. */
  function Magic(bytes: seq<U8>): Option<(bool, bool)>
    requires |bytes| >= 4
  {
    if Le32(bytes, 0) == 0xa1b2_c3d4 then Some((true, false))
    else if Be32(bytes, 0) == 0xa1b2_c3d4 then Some((false, false))
    else if Le32(bytes, 0) == 0xa1b2_3c4d then Some((true, true))
    else if Be32(bytes, 0) == 0xa1b2_3c4d then Some((false, true))
    else None
  }

  /** The 24 bytes of the file header, in the byte order of the magic number; the accuracy word is not kept. */
  function HeaderAt(bytes: seq<U8>): Option<PcapHeader> {
    if |bytes| < 24 then None
    else match Magic(bytes)
      case None => None
      case Some((le, ns)) =>
        Some(PcapHeader(le, ns, Read16(le, bytes, 4), Read16(le, bytes, 6), Signed(Read32(le, bytes, 8)),
                        Read32(le, bytes, 16), Read32(le, bytes, 20)))
  }

  /** Packet records from an offset on, and whether they reach the end of the file. */
  function PacketsFrom(h: PcapHeader, bytes: seq<U8>, off: nat): (r: (seq<PcapPacket>, bool))
    requires off <= |bytes|
    decreases |bytes| - off
  {
    if off == |bytes| then ([], true)
    else if |bytes| - off < 16 then ([], false)
    else
      var length := Read32(h.littleEndian, bytes, off + 8);
      if length > |bytes| - (off + 16) then ([], false)
      else
        var payload := bytes[off + 16..off + 16 + length];
        var packet := MakePacket(h, Read32(h.littleEndian, bytes, off), Read32(h.littleEndian, bytes, off + 4), Read32(h.littleEndian, bytes, off + 12), payload);
        var rest := PacketsFrom(h, bytes, off + 16 + length);
        ([packet] + rest.0, rest.1)
  }

  function ParsePcap(bytes: seq<U8>): Option<PcapFile> {
    match HeaderAt(bytes)
    case None => None
    case Some(h) =>
      var records := PacketsFrom(h, bytes, 24);
      Some(PcapFile(h, records.0, records.1))
  }

  method ParsePcapLoop(bytes: seq<U8>) returns (file: Option<PcapFile>)
    ensures file == ParsePcap(bytes)
  {
    hide DecodePacket, Read32, Read16, Signed, Magic, PacketsFrom;
    if |bytes| < 24 { return None; }
    var magic := Magic(bytes);
    if magic.None? { return None; }
    var (le, ns) := magic.value;
    var h := PcapHeader(le, ns, Read16(le, bytes, 4), Read16(le, bytes, 6), Signed(Read32(le, bytes, 8)),
                        Read32(le, bytes, 16), Read32(le, bytes, 20));
    var packets: seq<PcapPacket> := [];
    var offset := 24;
    var complete := true;
    ghost var all := PacketsFrom(h, bytes, 24);
    ghost var rest := all.0;
    assert packets + rest == rest;
    while offset < |bytes|
      invariant 24 <= offset <= |bytes| && complete
      invariant (rest, all.1) == PacketsFrom(h, bytes, offset) && all.0 == packets + rest
      decreases |bytes| - offset
    {
      PacketsUnfold(h, bytes, offset);
      if |bytes| - offset < 16 { complete := false; break; }
      var seconds, fraction := Read32(le, bytes, offset), Read32(le, bytes, offset + 4);
      var length, original := Read32(le, bytes, offset + 8), Read32(le, bytes, offset + 12);
      offset := offset + 16;
      if length > |bytes| - offset { complete := false; break; }
      var payload := bytes[offset..offset + length];
      var nanos: int := fraction;
      if !ns { nanos := nanos * 1000; }
      var time := NormalizeTimestamp(seconds, nanos);
      var packet := PcapPacket(seconds, fraction, original, time, payload, DecodePacket(payload, h.linkType));
      MovePacket(packets, packet, rest);
      packets, rest := packets + [packet], rest[1..];
      offset := offset + length;
    }
    if complete { PacketsUnfold(h, bytes, offset); }
    assert rest == [] && packets + [] == packets;
    return Some(PcapFile(h, packets, complete));
  }

  lemma MovePacket<T>(front: seq<T>, x: T, rest: seq<T>)
    requires rest != [] && rest[0] == x
    ensures front + rest == (front + [x]) + rest[1..]
  {}

  lemma PacketsUnfold(h: PcapHeader, bytes: seq<U8>, off: nat)
    requires off <= |bytes|
    ensures var all := PacketsFrom(h, bytes, off);
            if off == |bytes| then all == ([], true)
            else if |bytes| - off < 16 || Read32(h.littleEndian, bytes, off + 8) > |bytes| - (off + 16) then all == ([], false)
            else
              var payload := bytes[off + 16..off + 16 + Read32(h.littleEndian, bytes, off + 8)];
              && all.0 != [] && all.0[0] == MakePacket(h, Read32(h.littleEndian, bytes, off), Read32(h.littleEndian, bytes, off + 4), Read32(h.littleEndian, bytes, off + 12), payload)
              && (all.0[1..], all.1) == PacketsFrom(h, bytes, off + 16 + |payload|)
  {
    hide DecodePacket, Read32;
  }

  // ---- the records as they stand in the file ----

  function Put32(le: bool, x: U32): (b: seq<U8>)
    ensures |b| == 4
  {
    var b3, b2, b1, b0 := x / 0x100_0000, x / 0x1_0000 % 0x100, x / 0x100 % 0x100, x % 0x100;
    if le then [b0, b1, b2, b3] else [b3, b2, b1, b0]
  }

  function EncodePacket(le: bool, p: PcapPacket): seq<U8>
    requires |p.payload| < 0x1_0000_0000
  {
    Put32(le, p.seconds) + Put32(le, p.fraction) + Put32(le, |p.payload|) + Put32(le, p.originalLength) + p.payload
  }

  function EncodePackets(le: bool, ps: seq<PcapPacket>): seq<U8>
    requires forall p :: p in ps ==> |p.payload| < 0x1_0000_0000
  {
    if ps == [] then [] else EncodePacket(le, ps[0]) + EncodePackets(le, ps[1..])
  }

  function RecordBytes(ps: seq<PcapPacket>): nat {
    if ps == [] then 0 else 16 + |ps[0].payload| + RecordBytes(ps[1..])
  }

  lemma Put32Reads(le: bool, x: U32)
    ensures Read32(le, Put32(le, x), 0) == x
  {
    OctetsRecompose(x);
  }

  lemma Read32Puts(le: bool, bytes: seq<U8>, off: nat)
    requires off + 4 <= |bytes|
    ensures Put32(le, Read32(le, bytes, off)) == bytes[off..off + 4]
  {
    var b := bytes[off..off + 4];
    var x := Read32(le, bytes, off);
    if le { Digits(b[3], b[2], b[1], b[0]); } else { Digits(b[0], b[1], b[2], b[3]); }
  }

  lemma Digits(a: U8, b: U8, c: U8, d: U8)
    ensures var a': int, b': int, c': int := a, b, c;
            var x := ((a' * 256 + b') * 256 + c') * 256 + d;
            x / 0x100_0000 == a && x / 0x1_0000 % 0x100 == b && x / 0x100 % 0x100 == c && x % 0x100 == d
  {}

  lemma Read32Local(le: bool, bytes: seq<U8>, off: nat)
    requires off + 4 <= |bytes|
    ensures Read32(le, bytes, off) == Read32(le, bytes[off..off + 4], 0)
  {}

  /** The packets account for the bytes from `off` on, and for all of them exactly when complete. */
  ghost predicate Accounts(h: PcapHeader, bytes: seq<U8>, off: nat, ps: seq<PcapPacket>, complete: bool) {
    && (forall p :: p in ps ==> |p.payload| < 0x1_0000_0000 && Made(h, p))
    && off + RecordBytes(ps) <= |bytes|
    && (complete <==> off + RecordBytes(ps) == |bytes|)
    && bytes[off..off + RecordBytes(ps)] == EncodePackets(h.littleEndian, ps)
  }

  /**
   * The records stand in the file one after the other, header and payload byte
   * for byte, and reach its end exactly when no record check failed.
   */
  lemma {:induction false} RecordsConserve(h: PcapHeader, bytes: seq<U8>, off: nat)
    requires off <= |bytes|
    ensures var (ps, complete) := PacketsFrom(h, bytes, off);
            Accounts(h, bytes, off, ps, complete)
    decreases |bytes| - off
  {
    hide DecodePacket, Read32, Accounts;
    var (ps, complete) := PacketsFrom(h, bytes, off);
    if ps == [] {
      NoRecords(h, bytes, off, complete);
    } else {
      var length := Read32(h.littleEndian, bytes, off + 8);
      RecordsConserve(h, bytes, off + 16 + length);
      var (rest, _) := PacketsFrom(h, bytes, off + 16 + length);
      OneRecord(h.littleEndian, bytes, off, ps[0]);
      MoreRecords(h, bytes, off, ps[0], rest, complete);
    }
  }

  lemma NoRecords(h: PcapHeader, bytes: seq<U8>, off: nat, complete: bool)
    requires off <= |bytes| && (complete <==> off == |bytes|)
    ensures Accounts(h, bytes, off, [], complete)
  {}

  lemma MoreRecords(h: PcapHeader, bytes: seq<U8>, off: nat, p: PcapPacket, rest: seq<PcapPacket>, complete: bool)
    requires off + 16 + |p.payload| <= |bytes| && |p.payload| < 0x1_0000_0000 && Made(h, p)
    requires bytes[off..off + 16 + |p.payload|] == EncodePacket(h.littleEndian, p)
    requires Accounts(h, bytes, off + 16 + |p.payload|, rest, complete)
    ensures Accounts(h, bytes, off, [p] + rest, complete)
  {
    hide DecodePacket, EncodePacket;
    var ps := [p] + rest;
    assert ps[1..] == rest;
    SplitSlice(bytes, off, off + 16 + |p.payload|, off + RecordBytes(ps));
  }

  lemma SplitSlice<T>(s: seq<T>, a: nat, b: nat, c: nat)
    requires a <= b <= c <= |s|
    ensures s[a..c] == s[a..b] + s[b..c]
  {}

  lemma OneRecord(le: bool, bytes: seq<U8>, off: nat, p: PcapPacket)
    requires off + 16 + |p.payload| <= |bytes| && |p.payload| < 0x1_0000_0000
    requires p.seconds == Read32(le, bytes, off) && p.fraction == Read32(le, bytes, off + 4)
    requires |p.payload| == Read32(le, bytes, off + 8) && p.originalLength == Read32(le, bytes, off + 12)
    requires p.payload == bytes[off + 16..off + 16 + |p.payload|]
    ensures bytes[off..off + 16 + |p.payload|] == EncodePacket(le, p)
  {
    hide Read32, Put32;
    Read32Puts(le, bytes, off); Read32Puts(le, bytes, off + 4); Read32Puts(le, bytes, off + 8); Read32Puts(le, bytes, off + 12);
    var n := off + 16 + |p.payload|;
    assert bytes[off..n] == bytes[off..off + 4] + bytes[off + 4..off + 8] + bytes[off + 8..off + 12] + bytes[off + 12..off + 16] + bytes[off + 16..n];
  }

  /** Reading back a file body made of records gives these records, all of them. */
  lemma {:induction false} EncodedRecordsRead(h: PcapHeader, front: seq<U8>, ps: seq<PcapPacket>)
    requires forall p :: p in ps ==> |p.payload| < 0x1_0000_0000 && Made(h, p)
    ensures PacketsFrom(h, front + EncodePackets(h.littleEndian, ps), |front|) == (ps, true)
    decreases |ps|
  {
    hide DecodePacket, Read32, PacketsFrom, EncodePacket;
    if ps == [] {
      assert front + EncodePackets(h.littleEndian, ps) == front;
      EndOfFile(h, front);
    } else {
      var p, rest := ps[0], ps[1..];
      assert p in ps && ps == [p] + rest;
      var tail := EncodePackets(h.littleEndian, rest);
      var bytes := front + EncodePacket(h.littleEndian, p) + tail;
      assert front + EncodePackets(h.littleEndian, ps) == bytes;
      PacketSize(h.littleEndian, p);
      EncodedRecordsRead(h, front + EncodePacket(h.littleEndian, p), rest);
      HeaderReads(h.littleEndian, front, p, tail);
      OnePacketRead(h, bytes, |front|, p);
    }
  }

  lemma EndOfFile(h: PcapHeader, bytes: seq<U8>)
    ensures PacketsFrom(h, bytes, |bytes|) == ([], true)
  {}

  lemma PacketSize(le: bool, p: PcapPacket)
    requires |p.payload| < 0x1_0000_0000
    ensures |EncodePacket(le, p)| == 16 + |p.payload|
  {}

  lemma OnePacketRead(h: PcapHeader, bytes: seq<U8>, off: nat, p: PcapPacket)
    requires off + 16 + |p.payload| <= |bytes| && Made(h, p)
    requires Read32(h.littleEndian, bytes, off) == p.seconds && Read32(h.littleEndian, bytes, off + 4) == p.fraction
    requires Read32(h.littleEndian, bytes, off + 8) == |p.payload| && Read32(h.littleEndian, bytes, off + 12) == p.originalLength
    requires bytes[off + 16..off + 16 + |p.payload|] == p.payload
    ensures var rest := PacketsFrom(h, bytes, off + 16 + |p.payload|);
            PacketsFrom(h, bytes, off) == ([p] + rest.0, rest.1)
  {
    hide DecodePacket, Read32;
  }

  lemma HeaderReads(le: bool, front: seq<U8>, p: PcapPacket, back: seq<U8>)
    requires |p.payload| < 0x1_0000_0000
    ensures var bytes, off := front + EncodePacket(le, p) + back, |front|;
            && off + 16 + |p.payload| <= |bytes|
            && Read32(le, bytes, off) == p.seconds && Read32(le, bytes, off + 4) == p.fraction
            && Read32(le, bytes, off + 8) == |p.payload| && Read32(le, bytes, off + 12) == p.originalLength
            && bytes[off + 16..off + 16 + |p.payload|] == p.payload
  {
    hide Read32, Put32;
    var bytes, off := front + EncodePacket(le, p) + back, |front|;
    assert bytes[off..off + 4] == Put32(le, p.seconds);
    assert bytes[off + 4..off + 8] == Put32(le, p.fraction);
    assert bytes[off + 8..off + 12] == Put32(le, |p.payload|);
    assert bytes[off + 12..off + 16] == Put32(le, p.originalLength);
    Read32Local(le, bytes, off); Read32Local(le, bytes, off + 4); Read32Local(le, bytes, off + 8); Read32Local(le, bytes, off + 12);
    Put32Reads(le, p.seconds); Put32Reads(le, p.fraction); Put32Reads(le, |p.payload|); Put32Reads(le, p.originalLength);
  }

  // ---- whole files ----

  const MICROSECOND_MAGIC: U32 := 0xa1b2_c3d4
  const NANOSECOND_MAGIC: U32 := 0xa1b2_3c4d

  function Put16(le: bool, x: U16): (b: seq<U8>)
    ensures |b| == 2
  {
    if le then [x % 0x100, x / 0x100] else [x / 0x100, x % 0x100]
  }

  function Unsigned(z: I32): U32 { if z >= 0 then z else z + 0x1_0000_0000 }

  function MagicOf(nanoseconds: bool): U32 { if nanoseconds then NANOSECOND_MAGIC else MICROSECOND_MAGIC }

  function EncodeHeader(h: PcapHeader, accuracy: U32): (b: seq<U8>)
    ensures |b| == 24
  {
    var le := h.littleEndian;
    Put32(le, MagicOf(h.nanoseconds)) + (Put16(le, h.major) + Put16(le, h.minor))
    + Put32(le, Unsigned(h.zone)) + Put32(le, accuracy) + Put32(le, h.snapLength) + Put32(le, h.linkType)
  }

  lemma MagicBytes(le: bool, nanoseconds: bool)
    ensures Put32(le, MagicOf(nanoseconds)) ==
            if nanoseconds then (if le then [0x4d, 0x3c, 0xb2, 0xa1] else [0xa1, 0xb2, 0x3c, 0x4d])
            else (if le then [0xd4, 0xc3, 0xb2, 0xa1] else [0xa1, 0xb2, 0xc3, 0xd4])
  {}

  lemma MagicReads(le: bool, nanoseconds: bool, bytes: seq<U8>)
    requires |bytes| >= 4 && bytes[..4] == Put32(le, MagicOf(nanoseconds))
    ensures Magic(bytes) == Some((le, nanoseconds))
  {
    hide Put32, MagicOf;
    MagicBytes(le, nanoseconds);
    assert bytes[0] == bytes[..4][0] && bytes[1] == bytes[..4][1] && bytes[2] == bytes[..4][2] && bytes[3] == bytes[..4][3];
  }

  lemma Put16Reads(le: bool, x: U16, bytes: seq<U8>, off: nat)
    requires off + 2 <= |bytes| && bytes[off..off + 2] == Put16(le, x)
    ensures Read16(le, bytes, off) == x
  {
    assert bytes[off] == bytes[off..off + 2][0] && bytes[off + 1] == bytes[off..off + 2][1];
  }

  lemma WordReads(le: bool, x: U32, bytes: seq<U8>, off: nat)
    requires off + 4 <= |bytes| && bytes[off..off + 4] == Put32(le, x)
    ensures Read32(le, bytes, off) == x
  {
    hide Read32, Put32;
    Read32Local(le, bytes, off);
    Put32Reads(le, x);
  }

  lemma SignedUnsigned(z: I32)
    ensures Signed(Unsigned(z)) == z
  {}

  lemma HeaderBytes(h: PcapHeader, accuracy: U32, back: seq<U8>)
    ensures var bytes, le := EncodeHeader(h, accuracy) + back, h.littleEndian;
            && bytes[..4] == Put32(le, MagicOf(h.nanoseconds)) && bytes[4..6] == Put16(le, h.major) && bytes[6..8] == Put16(le, h.minor)
            && bytes[8..12] == Put32(le, Unsigned(h.zone)) && bytes[16..20] == Put32(le, h.snapLength) && bytes[20..24] == Put32(le, h.linkType)
  {
    hide Put32, Put16, MagicOf, Unsigned;
  }

  lemma FileHeaderReads(h: PcapHeader, accuracy: U32, back: seq<U8>)
    ensures HeaderAt(EncodeHeader(h, accuracy) + back) == Some(h)
  {
    hide EncodeHeader, Read32, Read16, Put32, Put16, MagicOf, Magic, Signed, Unsigned;
    var bytes, le := EncodeHeader(h, accuracy) + back, h.littleEndian;
    HeaderBytes(h, accuracy, back);
    MagicReads(le, h.nanoseconds, bytes);
    Put16Reads(le, h.major, bytes, 4);
    Put16Reads(le, h.minor, bytes, 6);
    WordReads(le, Unsigned(h.zone), bytes, 8);
    SignedUnsigned(h.zone);
    WordReads(le, h.snapLength, bytes, 16);
    WordReads(le, h.linkType, bytes, 20);
  }

  /** A capture file written in either byte order and resolution reads back whole, header and packets. */
  lemma FileReadsBack(h: PcapHeader, accuracy: U32, ps: seq<PcapPacket>)
    requires forall p :: p in ps ==> |p.payload| < 0x1_0000_0000 && Made(h, p)
    ensures ParsePcap(EncodeHeader(h, accuracy) + EncodePackets(h.littleEndian, ps)) == Some(PcapFile(h, ps, true))
  {
    hide EncodeHeader, EncodePackets, HeaderAt, PacketsFrom, DecodePacket;
    FileHeaderReads(h, accuracy, EncodePackets(h.littleEndian, ps));
    EncodedRecordsRead(h, EncodeHeader(h, accuracy), ps);
  }

  /** The time of every packet read is the instant that its record states, the fraction in nanoseconds or microseconds by the file's magic number. */
  lemma PacketTimes(h: PcapHeader, bytes: seq<U8>, off: nat, p: PcapPacket)
    requires off <= |bytes| && p in PacketsFrom(h, bytes, off).0
    ensures 0 <= p.time.nanos < NANOS
    ensures p.time.seconds * NANOS + p.time.nanos == p.seconds * NANOS + (if h.nanoseconds then p.fraction else 1000 * p.fraction)
  {
    hide DecodePacket, PacketsFrom, EncodePackets, Read32, Normalized;
    RecordsConserve(h, bytes, off);
    var nanos: int := if h.nanoseconds then p.fraction else 1000 * p.fraction;
    NormalizedIsTheInstant(p.seconds, nanos, p.time);
  }

  // ---- from the wire to the indicator match ----

  /** What a decoded packet offers to the indicator match; names sorted and without repetition. */
  ghost function ObservedIn(md: Metadata): Observed {
    Observed(if md.ipv4.None? then None else Some((md.ipv4.value.source, md.ipv4.value.destination)),
             if md.dns.None? then [] else SortedKeys(MessageNames(md.dns.value)))
  }

  /** Every packet that the decoder produces offers clean names only. */
  lemma DecodedNamesAreClean(bytes: seq<U8>, linkType: U32)
    ensures forall n :: n in ObservedIn(DecodePacket(bytes, linkType)).names ==> NoSpaces(n) && Clean(n)
  {
    hide Be16, Be32, MessageAt, MessageNames, Clean, NoSpaces, ParseIpv4Packet, ParseUdpDatagram, ParseTcpSegment, ParseEthernet;
    var md := DecodePacket(bytes, linkType);
    if md.dns.Some? {
      DnsComesFromMessage(bytes, linkType);
      var payload: seq<U8> :| MessageAt(payload).Some? && MessageAt(payload).value.0 == md.dns.value;
      MessageNamesAreClean(payload);
    }
  }

  lemma DnsComesFromMessage(bytes: seq<U8>, linkType: U32)
    requires DecodePacket(bytes, linkType).dns.Some?
    ensures exists payload: seq<U8> :: MessageAt(payload).Some? && MessageAt(payload).value.0 == DecodePacket(bytes, linkType).dns.value
  {
    hide Be16, Be32, MessageAt, ParseIpv4Packet, ParseUdpDatagram, ParseTcpSegment, ParseEthernet;
  }
}
