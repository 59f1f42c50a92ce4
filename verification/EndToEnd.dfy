/** From captured bytes to indicator matches, in every state of the index. */
module EndToEnd {
  import opened Text
  import opened Ipv4
  import opened Indicators
  import opened DomainNames
  import opened IndexSpec
  import opened IndexRuns
  import opened Refinement
  import opened IndicatorText
  import opened RefreshSession
  import opened Checksum
  import opened DnsWire
  import opened Capture
  import opened Exprs
  import opened Signature
  import opened PacketReports
  import opened RuleMatching
  import opened Frames

  /**
   * Whatever bytes a packet has and whatever was done to the index before, index
   * and linear scan report the same bag of results for the decoded packet.
   */
  lemma CapturedPacketsAgree(ops: seq<Op>, bytes: seq<U8>, linkType: U32)
    requires FilesConsistent(ops)
    ensures var inds := Active(Run(INITIAL, ops).records);
            var md := ObservedIn(DecodePacket(bytes, linkType));
            multiset(PacketAnswer(inds, md)) == multiset(ScanPacket(inds, md))
  {
    hide *;
    var md := ObservedIn(DecodePacket(bytes, linkType));
    DecodedNamesAreClean(bytes, linkType);
    EveryRunRefinesScan(ops, md);
  }

  /** The same for an indicator list read from text, when every URL host meets the exact condition on hosts. */
  lemma ParsedListsAgree(text: string, source: string, bytes: seq<U8>, linkType: U32)
    requires UrlHostsAgreeable(FirstByKey(AcceptedLines(Fields(text, '\n'), source)))
    ensures var inds := FirstByKey(AcceptedLines(Fields(text, '\n'), source));
            var md := ObservedIn(DecodePacket(bytes, linkType));
            multiset(PacketAnswer(inds, md)) == multiset(ScanPacket(inds, md))
  {
    hide FirstByKey, AcceptedLines, Fields, WellParsed, ConsistentIp, ObservedIn, DecodePacket, PacketAnswer, ScanPacket, Clean,
      Stable, Unmatchable, HostOf, NoSpaces;
    var all := AcceptedLines(Fields(text, '\n'), source);
    var inds := FirstByKey(all);
    AcceptedAreWellParsed(Fields(text, '\n'), source);
    DedupeIsExact(all);
    ParsedAreAgreeable(inds);
    DecodedNamesAreClean(bytes, linkType);
    AgreeableRefinesScan(inds, ObservedIn(DecodePacket(bytes, linkType)));
  }

  /** For a written frame the scan reports, as source, exactly the indicators that watch its source address and that no allow-listed one silences. */
  lemma FrameIsReported(inds: seq<Indicator>, f: Frame, i: Indicator)
    requires WritableFrame(f)
    ensures MatchResult(i, "ipv4.source", Ipv4ToString(f.ip.source)) in ScanPacket(inds, ObservedIn(DecodePacket(EncodeFrame(f), 1))) <==>
            i in inds && WatchesAddress(i, f.ip.source) && (i.role == Allow || forall a :: a in inds && a.role == Allow ==> !WatchesAddress(a, f.ip.source))
    ensures MatchResult(i, "ipv4.destination", Ipv4ToString(f.ip.destination)) in ScanPacket(inds, ObservedIn(DecodePacket(EncodeFrame(f), 1))) <==>
            i in inds && WatchesAddress(i, f.ip.destination) && (i.role == Allow || forall a :: a in inds && a.role == Allow ==> !WatchesAddress(a, f.ip.destination))
  {
    hide *;
    var md := ObservedIn(DecodePacket(EncodeFrame(f), 1));
    FrameIsObserved(f);
    AddressReportedIff(inds, md, i, true);
    AddressReportedIff(inds, md, i, false);
  }

  /** What a rule reads of a decoded packet: names sorted and without repetition, and the texts of the answers. */
  ghost function ViewOf(md: Metadata): PacketView {
    PacketView(
      if md.ipv4.None? then None else Some((md.ipv4.value.source, md.ipv4.value.destination, md.ipv4.value.protocol)),
      if md.tcp.None? then None else Some((md.tcp.value.sourcePort, md.tcp.value.destinationPort)),
      if md.udp.None? then None else Some((md.udp.value.sourcePort, md.udp.value.destinationPort)),
      if md.dns.None? then None else Some((SortedKeys(MessageNames(md.dns.value)), AnswerTexts(md.dns.value.answers))))
  }

  function AnswerTexts(rs: seq<DnsRecord>): seq<string> { seq(|rs|, i requires 0 <= i < |rs| => rs[i].text) }

  lemma FrameFlow(f: Frame)
    requires WritableFrame(f)
    ensures var v := ViewOf(DecodePacket(EncodeFrame(f), 1));
            && (f.transport.TcpPart? ==> HasFlow(v, f.ip.source, f.transport.tcp.sourcePort, f.ip.destination, f.transport.tcp.destinationPort))
            && (f.transport.UdpPart? ==> HasFlow(v, f.ip.source, f.transport.udp.sourcePort, f.ip.destination, f.transport.udp.destinationPort))
            && (v.tcp.Some? <==> f.transport.TcpPart?) && (v.udp.Some? <==> f.transport.UdpPart?)
  {
    hide DecodePacket, EncodeFrame, WritableFrame, DnsOf, MessageNames, ParseTcpSegment, ParseUdpDatagram, InternetChecksum, IpHeader, EncodeTcp,
      EncodeUdp, EthernetHeader, SortedKeys;
    FrameDecodes(f);
  }

  /**
   * From two texts to a verdict: a written TCP rule matches a written TCP frame
   * exactly when its source side covers the frame's source address and port and
   * its destination side the others, or with a double arrow the other way round.
   */
  lemma RuleLineMeetsFrame(from: Side, arrow: string, to: Side, sid: U32, rev: U32, f: Frame)
    requires (arrow == "->" || arrow == "<>") && WrittenSide(from) && WrittenSide(to)
    requires WritableFrame(f) && f.transport.TcpPart?
    ensures var read := ParseRuleLine(LineText("tcp", from, arrow, to, sid, rev));
            var t := f.transport.tcp;
            && read.Parsed? && read.value.sid == sid && read.value.rev == rev
            && (RuleMatchesPacket(read.value, ViewOf(DecodePacket(EncodeFrame(f), 1))) <==>
                || (Within(from, f.ip.source, t.sourcePort) && Within(to, f.ip.destination, t.destinationPort))
                || (arrow == "<>" && Within(from, f.ip.destination, t.destinationPort) && Within(to, f.ip.source, t.sourcePort)))
  {
    hide *;
    var v := ViewOf(DecodePacket(EncodeFrame(f), 1));
    var t := f.transport.tcp;
    FrameFlow(f);
    TcpIsAdmitted(v, f.ip.source, t.sourcePort, f.ip.destination, t.destinationPort);
    WrittenRuleMatches(Tcp, from, arrow, to, sid, rev, v, f.ip.source, t.sourcePort, f.ip.destination, t.destinationPort);
  }

  lemma TcpIsAdmitted(v: PacketView, src: U32, sp: U16, dst: U32, dp: U16)
    requires HasFlow(v, src, sp, dst, dp) && v.tcp.Some?
    ensures ProtocolMatches(Tcp, v) && ProtocolName(Tcp) == "tcp"
  {}
}
