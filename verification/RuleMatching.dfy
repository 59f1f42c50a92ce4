/** Which packets a signature rule matches, said by the fields of the packet, and from the text of the rule on. */
module RuleMatching {
  import opened Text
  import opened Ipv4
  import opened Exprs
  import opened ExprMeaning
  import opened Signature
  import opened Reparse
  import opened PlainRules
  import RuleHeader
  import OptionScan

  // ---- flows ----

  /** Source and destination port of a packet, as the transport header has them, and zero without one. */
  predicate HasPorts(v: PacketView, sp: U16, dp: U16) {
    if v.tcp.Some? then v.tcp.value.0 == sp && v.tcp.value.1 == dp
    else if v.udp.Some? then v.udp.value.0 == sp && v.udp.value.1 == dp
    else sp == 0 && dp == 0
  }

  predicate HasFlow(v: PacketView, src: U32, sp: U16, dst: U32, dp: U16) {
    v.ipv4.Some? && v.ipv4.value.0 == src && v.ipv4.value.1 == dst && HasPorts(v, sp, dp)
  }

  /** The one-way rule that names a flow matches exactly the packets of that flow, in that direction. */
  lemma FlowRuleMatchesItsFlow(r: SignatureRule, src: U32, sp: U16, dst: U32, dp: U16, v: PacketView)
    requires r.direction != "<>" && r.protocol == AnyProto && r.content == ""
    requires r.source == OneAddress(src) && r.sourcePorts == OnePort(sp) && r.destination == OneAddress(dst) && r.destinationPorts == OnePort(dp)
    ensures RuleMatchesPacket(r, v) <==> HasFlow(v, src, sp, dst, dp)
  {
    hide AddressMatches, PortMatches, Mentions;
    if v.ipv4.Some? {
      OneAddressMatches(src, v.ipv4.value.0);
      OneAddressMatches(dst, v.ipv4.value.1);
      OnePortMatches(sp, Ports(v).0);
      OnePortMatches(dp, Ports(v).1);
    }
  }

  /** The two-way rule matches the packets of the flow and those of its reverse. */
  lemma FlowRuleBothWays(r: SignatureRule, src: U32, sp: U16, dst: U32, dp: U16, v: PacketView)
    requires r.direction == "<>" && r.protocol == AnyProto && r.content == ""
    requires r.source == OneAddress(src) && r.sourcePorts == OnePort(sp) && r.destination == OneAddress(dst) && r.destinationPorts == OnePort(dp)
    ensures RuleMatchesPacket(r, v) <==> HasFlow(v, src, sp, dst, dp) || HasFlow(v, dst, dp, src, sp)
  {
    hide AddressMatches, PortMatches, Mentions;
    if v.ipv4.Some? {
      OneAddressMatches(src, v.ipv4.value.0); OneAddressMatches(src, v.ipv4.value.1);
      OneAddressMatches(dst, v.ipv4.value.0); OneAddressMatches(dst, v.ipv4.value.1);
      OnePortMatches(sp, Ports(v).0); OnePortMatches(sp, Ports(v).1);
      OnePortMatches(dp, Ports(v).0); OnePortMatches(dp, Ports(v).1);
    }
  }

  /** A one-way rule never matches a packet that one of its four expressions rejects. */
  lemma RejectedFieldNeverMatches(r: SignatureRule, v: PacketView, src: U32, sp: U16, dst: U32, dp: U16)
    requires r.direction != "<>" && HasFlow(v, src, sp, dst, dp)
    requires !AddressMatches(r.source, src) || !PortMatches(r.sourcePorts, sp)
             || !AddressMatches(r.destination, dst) || !PortMatches(r.destinationPorts, dp)
    ensures !RuleMatchesPacket(r, v)
  {
    hide AddressMatches, PortMatches, Mentions;
  }

  /** And it matches every packet that all four accept, when protocol and content do. */
  lemma AcceptedFieldsMatch(r: SignatureRule, v: PacketView, src: U32, sp: U16, dst: U32, dp: U16)
    requires HasFlow(v, src, sp, dst, dp) && r.protocol == AnyProto && r.content == ""
    requires AddressMatches(r.source, src) && PortMatches(r.sourcePorts, sp)
             && AddressMatches(r.destination, dst) && PortMatches(r.destinationPorts, dp)
    ensures RuleMatchesPacket(r, v)
  {
    hide AddressMatches, PortMatches, Mentions;
  }

  /** A two-way rule is its one-way form, on the packet or on its reverse. */
  lemma TwoWayIsEitherWay(r: SignatureRule, v: PacketView)
    requires r.direction == "<>"
    ensures var forward := r.(direction := "->");
            RuleMatchesPacket(r, v) <==> RuleMatchesPacket(forward, v) || RuleMatchesPacket(forward, Reversed(v))
  {
    hide AddressMatches, PortMatches, Mentions;
    assert "->"[0] != "<>"[0];
  }

  // ---- protocols ----

  predicate WebPort(p: U16) { p == 80 || p == 443 }

  /** What each protocol asks of a packet, on top of what a rule for any protocol asks. */
  lemma ProtocolAdmits(r: SignatureRule, v: PacketView)
    ensures RuleMatchesPacket(r, v) <==>
            RuleMatchesPacket(r.(protocol := AnyProto), v)
            && (r.protocol == Tcp ==> v.tcp.Some?)
            && (r.protocol == Udp ==> v.udp.Some?)
            && (r.protocol == Icmp ==> v.ipv4.Some? && v.ipv4.value.2 == 1)
            && (r.protocol == Dns ==> v.dns.Some?)
            && (r.protocol == Http ==> v.tcp.Some? && (WebPort(v.tcp.value.0) || WebPort(v.tcp.value.1)))
            && r.protocol != UnknownProto
  {
    hide AddressMatches, PortMatches, Mentions;
  }

  // ---- contents ----

  /** The content stands there, letter case aside. */
  predicate StandsAt(text: string, k: nat, content: string) {
    k + |content| <= |text| && forall i :: 0 <= i < |content| ==> LowerChar(text[k + i]) == LowerChar(content[i])
  }

  predicate Holds(text: string, content: string) { exists k: nat :: k <= |text| && StandsAt(text, k, content) }

  lemma MentionsIff(text: string, content: string)
    requires content != ""
    ensures Mentions(text, content) <==> Holds(text, content)
  {
    var t, c := ToLower(text), ToLower(content);
    var at := FindText(t, c);
    if at < |t| {
      assert t[at..][..|c|] == c;
      forall i | 0 <= i < |c| ensures LowerChar(text[at + i]) == LowerChar(content[i]) { assert t[at..][..|c|][i] == t[at + i]; }
      assert StandsAt(text, at, content);
    }
    if k: nat :| k <= |text| && StandsAt(text, k, content) {
      assert t[k..][..|c|] == c;
      assert StartsWith(t[k..], c);
    }
  }

  /** A content is looked for in the names of the DNS message and in the texts of its answers, and nowhere else. */
  lemma ContentIsLookedFor(r: SignatureRule, v: PacketView)
    requires r.content != ""
    ensures RuleMatchesPacket(r, v) <==>
            RuleMatchesPacket(r.(content := ""), v)
            && v.dns.Some? && ((exists n :: n in v.dns.value.0 && Holds(n, r.content)) || exists t :: t in v.dns.value.1 && Holds(t, r.content))
  {
    hide AddressMatches, PortMatches, Mentions, Holds;
    forall t: string ensures Mentions(t, r.content) <==> Holds(t, r.content) { MentionsIff(t, r.content); }
  }

  // ---- from the text on ----

  lemma ActionWords()
    ensures ParseAction("alert") == Some(Alert) && ParseAction("pass") == Some(Pass) && ParseAction("drop") == Some(Drop)
    ensures ParseAction("reject") == Some(Reject) && ParseAction("log") == Some(Log)
  {
    hide ParseAction;
    RuleHeader.ActionReads(Alert); RuleHeader.ActionReads(Pass); RuleHeader.ActionReads(Drop);
    RuleHeader.ActionReads(Reject); RuleHeader.ActionReads(Log);
  }

  lemma ProtocolWords()
    ensures ParseProtocol("tcp") == Some(Tcp) && ParseProtocol("udp") == Some(Udp) && ParseProtocol("icmp") == Some(Icmp)
    ensures ParseProtocol("ip") == Some(IpProto) && ParseProtocol("dns") == Some(Dns) && ParseProtocol("http") == Some(Http)
    ensures ParseProtocol("any") == Some(AnyProto)
  {
    hide ParseProtocol;
    RuleHeader.ProtocolReads(Tcp); RuleHeader.ProtocolReads(Udp); RuleHeader.ProtocolReads(Icmp); RuleHeader.ProtocolReads(IpProto);
    RuleHeader.ProtocolReads(Dns); RuleHeader.ProtocolReads(Http); RuleHeader.ProtocolReads(AnyProto);
  }

  datatype Side = Side(network: CidrRange, ports: PortRange)

  /** The leading bits of the address, and the port within bounds. */
  predicate Within(s: Side, x: U32, p: U16)
    requires s.network.prefix <= 32
  {
    Bits(x)[..s.network.prefix] == Bits(s.network.network)[..s.network.prefix] && s.ports.lo <= p <= s.ports.hi
  }

  predicate WrittenSide(s: Side) { IsNetwork(s.network) && s.ports.lo < s.ports.hi }

  function SideText(s: Side): string
    requires WrittenSide(s)
  {
    Ipv4ToString(s.network.network) + "/" + Decimal(s.network.prefix) + " " + Decimal(s.ports.lo) + ":" + Decimal(s.ports.hi)
  }

  function LineText(protocol: string, from: Side, arrow: string, to: Side, sid: U32, rev: U32): string
    requires WrittenSide(from) && WrittenSide(to)
  {
    "alert " + protocol + " " + SideText(from) + " " + arrow + " " + SideText(to)
    + " (rev:\"" + Decimal(rev) + "\"; sid:\"" + Decimal(sid) + "\"; )"
  }

  function SideAddress(s: Side): AddressExpr { AddressExpr(false, false, [s.network], []) }

  function SidePorts(s: Side): PortExpr { PortExpr(false, false, [s.ports]) }

  function NumberedOptions(sid: U32, rev: U32): seq<RuleOption> { [RuleOption("rev", Decimal(rev)), RuleOption("sid", Decimal(sid))] }

  function LineRule(protocol: Protocol, from: Side, arrow: string, to: Side, sid: U32, rev: U32): SignatureRule {
    FromOptions(Alert, protocol, SideAddress(from), SidePorts(from), arrow, SideAddress(to), SidePorts(to), NumberedOptions(sid, rev))
  }

  lemma NumberedFields(protocol: Protocol, from: Side, arrow: string, to: Side, sid: U32, rev: U32)
    ensures var r := LineRule(protocol, from, arrow, to, sid, rev);
            r.sid == sid && r.rev == rev && r.content == "" && r.msg == "" && r.classtype == ""
  {
    hide Decimal, NumberOr, OptionValue;
    var first, second := RuleOption("rev", Decimal(rev)), RuleOption("sid", Decimal(sid));
    KeysDiffer();
    TwoOptions(first, second, "sid"); TwoOptions(first, second, "rev"); TwoOptions(first, second, "msg");
    TwoOptions(first, second, "content"); TwoOptions(first, second, "classtype");
    NumberReads(sid);
    NumberReads(rev);
  }

  lemma TwoOptions(a: RuleOption, b: RuleOption, key: string)
    ensures OptionValue([a, b], key) == if a.key == key then Some(a.value) else if b.key == key then Some(b.value) else None
  {
    assert [a, b][1..] == [b] && [b][1..] == [];
    assert OptionValue([b], key) == if b.key == key then Some(b.value) else None;
  }

  lemma NumberReads(n: U32)
    ensures NumberOr(Some(Decimal(n))) == n
  {
    DecimalRoundTrip(n);
  }

  lemma KeysDiffer()
    ensures "rev" != "sid" && "rev" != "msg" && "sid" != "msg" && "rev" != "content" && "sid" != "content"
    ensures "rev" != "classtype" && "sid" != "classtype" && Less("rev", "sid")
  {
    assert "rev"[0] == 'r' && "sid"[0] == 's' && "msg"[0] == 'm' && "content"[0] == 'c' && "classtype"[0] == 'c';
  }

  lemma NumberedAreSorted(sid: U32, rev: U32)
    ensures SortOptions(NumberedOptions(sid, rev)) == NumberedOptions(sid, rev)
  {
    hide Less, Decimal;
    KeysDiffer();
    LessTotal("rev", "sid");
    SortAgain(NumberedOptions(sid, rev));
  }

  lemma NumberedText(sid: U32, rev: U32)
    ensures OptionsText(NumberedOptions(sid, rev)) == "rev:\"" + Decimal(rev) + "\"; sid:\"" + Decimal(sid) + "\"; "
  {
    hide Decimal, OptionsText;
    var first, second := RuleOption("rev", Decimal(rev)), RuleOption("sid", Decimal(sid));
    assert [first, second][1..] == [second] && [second][1..] == [];
    OptionScan.OptionsTextCons([first, second]);
    OptionScan.OptionsTextCons([second]);
    OptionScan.NoOptionsText();
    assert Decimal(sid)[0] != 't' && Decimal(rev)[0] != 't';
    assert OptionText(second) + "; " + "" == "sid:\"" + Decimal(sid) + "\"; ";
  }

  lemma DecimalIsGood(n: nat)
    ensures GoodValue(Decimal(n))
  {
    hide Decimal;
    DigitsAreBalanced(Decimal(n));
  }

  lemma {:induction false} DigitsAreBalanced(s: string)
    requires forall i :: 0 <= i < |s| ==> IsDigit(s[i])
    ensures Balanced(s, false)
  {
    if s != "" { DigitsAreBalanced(s[1..]); }
  }

  lemma SideIsRead(s: Side)
    requires WrittenSide(s)
    ensures Networked(SideAddress(s)) && WellFormedAddresses(SideAddress(s)) && Printable(SideAddress(s))
    ensures Ordered(SidePorts(s)) && WellFormedPorts(SidePorts(s))
    ensures AddressToString(SideAddress(s)) + " " + PortToString(SidePorts(s)) == SideText(s)
  {
    hide Decimal, Ipv4ToString, Masked;
    assert NetworkTexts([s.network]) + [] == [CidrToString(s.network)];
    assert RangeTexts([s.ports]) == [RangeText(s.ports)];
    var net, prefix, ports := Ipv4ToString(s.network.network), Decimal(s.network.prefix), RangeText(s.ports);
    assert AddressToString(SideAddress(s)) == "" + (net + "/" + prefix) == net + "/" + prefix;
    assert PortToString(SidePorts(s)) == "" + ports == ports;
    assert ports == Decimal(s.ports.lo) + ":" + Decimal(s.ports.hi);
  }

  lemma NumberedAreGood(sid: U32, rev: U32)
    ensures forall o :: o in NumberedOptions(sid, rev) ==> GoodOption(o)
  {
    hide GoodValue, Decimal;
    DecimalIsGood(sid);
    DecimalIsGood(rev);
  }

  lemma LineRuleFields(protocol: Protocol, from: Side, arrow: string, to: Side, sid: U32, rev: U32)
    ensures var r := LineRule(protocol, from, arrow, to, sid, rev);
            && r.action == Alert && r.protocol == protocol && r.direction == arrow && r.options == NumberedOptions(sid, rev)
            && r.source == SideAddress(from) && r.sourcePorts == SidePorts(from)
            && r.destination == SideAddress(to) && r.destinationPorts == SidePorts(to) && Derived(r)
    ensures SideAddress(from).variables + SideAddress(to).variables == []
  {
    hide OptionValue, NumberOr, NumberedOptions;
  }

  lemma LineRuleIsRewritable(protocol: Protocol, from: Side, arrow: string, to: Side, sid: U32, rev: U32)
    requires protocol != UnknownProto && (arrow == "->" || arrow == "<>") && WrittenSide(from) && WrittenSide(to)
    ensures Rewritable(LineRule(protocol, from, arrow, to, sid, rev))
  {
    hide Networked, Ordered, WellFormedAddresses, WellFormedPorts, GoodOption, LineRule, SideAddress, SidePorts, NumberedOptions, Derived,
      GoodVariable, WrittenSide;
    SideIsRead(from);
    SideIsRead(to);
    LineRuleFields(protocol, from, arrow, to, sid, rev);
    NumberedAreGood(sid, rev);
  }

  lemma SevenTokens(a: string, b: string, c: string, d: string, e: string, f: string, g: string)
    ensures Spaced([a, b, c, d, e, f, g]) == a + " " + b + " " + (c + " " + d) + " " + e + " " + (f + " " + g) + " "
  {
    hide Spaced;
    NoTokens();
    assert [g] + [] == [g] && [f] + [g] == [f, g] && [e] + [f, g] == [e, f, g] && [d] + [e, f, g] == [d, e, f, g];
    assert [c] + [d, e, f, g] == [c, d, e, f, g] && [b] + [c, d, e, f, g] == [b, c, d, e, f, g] && [a] + [b, c, d, e, f, g] == [a, b, c, d, e, f, g];
    RuleHeader.SpacedCons(g, []); RuleHeader.SpacedCons(f, [g]); RuleHeader.SpacedCons(e, [f, g]); RuleHeader.SpacedCons(d, [e, f, g]);
    RuleHeader.SpacedCons(c, [d, e, f, g]); RuleHeader.SpacedCons(b, [c, d, e, f, g]); RuleHeader.SpacedCons(a, [b, c, d, e, f, g]);
    var efg := e + (" " + (f + (" " + (g + " "))));
    assert Spaced([e, f, g]) == efg == e + " " + (f + " " + g) + " ";
    assert c + (" " + (d + (" " + efg))) == (c + " " + d) + " " + efg;
    assert a + (" " + (b + (" " + ((c + " " + d) + " " + efg)))) == a + " " + b + " " + (c + " " + d) + " " + efg;
  }

  lemma LineIsNormalForm(protocol: Protocol, from: Side, arrow: string, to: Side, sid: U32, rev: U32)
    requires protocol != UnknownProto && WrittenSide(from) && WrittenSide(to)
    ensures Printable(SideAddress(from)) && Printable(SideAddress(to))
    ensures NormalizeRule(LineRule(protocol, from, arrow, to, sid, rev)) == LineText(ProtocolName(protocol), from, arrow, to, sid, rev)
  {
    hide Decimal, AddressToString, PortToString, SideText, SortOptions, OptionsText, Spaced, OptionValue, NumberOr, IsNetwork, NumberedOptions;
    var r := LineRule(protocol, from, arrow, to, sid, rev);
    SideIsRead(from);
    SideIsRead(to);
    NumberedAreSorted(sid, rev);
    NumberedText(sid, rev);
    SevenTokens("alert", ProtocolName(protocol), AddressToString(r.source), PortToString(r.sourcePorts), arrow,
                AddressToString(r.destination), PortToString(r.destinationPorts));
    JoinedLine("alert " + ProtocolName(protocol) + " " + SideText(from) + " " + arrow + " " + SideText(to), Decimal(rev), Decimal(sid));
  }

  lemma JoinedLine(header: string, rev: string, sid: string)
    ensures header + " " + "(" + ("rev:\"" + rev + "\"; sid:\"" + sid + "\"; ") + ")" == header + " (rev:\"" + rev + "\"; sid:\"" + sid + "\"; )"
  {}

  /** The line reads as the rule with these fields. */
  lemma WrittenLineReads(protocol: Protocol, from: Side, arrow: string, to: Side, sid: U32, rev: U32)
    requires protocol != UnknownProto && (arrow == "->" || arrow == "<>") && WrittenSide(from) && WrittenSide(to)
    ensures ParseRuleLine(LineText(ProtocolName(protocol), from, arrow, to, sid, rev)) == Parsed(LineRule(protocol, from, arrow, to, sid, rev))
  {
    hide *;
    var r := LineRule(protocol, from, arrow, to, sid, rev);
    LineRuleIsRewritable(protocol, from, arrow, to, sid, rev);
    LineIsNormalForm(protocol, from, arrow, to, sid, rev);
    NumberedAreSorted(sid, rev);
    NormalFormReadsBack(r);
    LineRuleOptions(protocol, from, arrow, to, sid, rev);
  }

  lemma LineRuleOptions(protocol: Protocol, from: Side, arrow: string, to: Side, sid: U32, rev: U32)
    ensures var r := LineRule(protocol, from, arrow, to, sid, rev);
            r.options == NumberedOptions(sid, rev) && r.(options := NumberedOptions(sid, rev)) == r
  {
    hide OptionValue, NumberOr;
  }

  lemma SideMatches(s: Side, x: U32, p: U16)
    requires WrittenSide(s)
    ensures AddressMatches(SideAddress(s), x) && PortMatches(SidePorts(s), p) <==> Within(s, x, p)
  {
    hide Contains, Masked, Bits;
    ContainsIsPrefixMatch(s.network, x);
    assert SideAddress(s).ranges[0] == s.network && SidePorts(s).ranges[0] == s.ports;
  }

  /**
   * From the text to the packet: the rule read from a line matches a packet of
   * its protocol exactly when the source side covers source address and port and
   * the destination side the others, or with a double arrow the other way round.
   */
  lemma WrittenRuleMatches(
    protocol: Protocol, from: Side, arrow: string, to: Side, sid: U32, rev: U32, v: PacketView, src: U32, sp: U16, dst: U32, dp: U16)
    requires protocol != UnknownProto && (arrow == "->" || arrow == "<>") && WrittenSide(from) && WrittenSide(to)
    requires HasFlow(v, src, sp, dst, dp)
    ensures var read := ParseRuleLine(LineText(ProtocolName(protocol), from, arrow, to, sid, rev));
            && read.Parsed? && read.value.action == Alert && read.value.sid == sid && read.value.rev == rev
            && (RuleMatchesPacket(read.value, v) <==>
                ProtocolMatches(protocol, v)
                && ((Within(from, src, sp) && Within(to, dst, dp)) || (arrow == "<>" && Within(from, dst, dp) && Within(to, src, sp))))
  {
    hide ParseRuleLine, LineText, AddressMatches, PortMatches, Within, OptionValue, NumberOr, ProtocolMatches, SideAddress, SidePorts, WrittenSide;
    WrittenLineReads(protocol, from, arrow, to, sid, rev);
    NumberedFields(protocol, from, arrow, to, sid, rev);
    SideMatches(from, src, sp); SideMatches(to, dst, dp);
    SideMatches(from, dst, dp); SideMatches(to, src, sp);
  }
}
