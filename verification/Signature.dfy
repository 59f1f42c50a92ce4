/** Signature rules: reading a rule line, printing it in normal form, matching packets. */
module Signature {
  import opened Collections
  import opened Text
  import opened Ipv4
  import opened Exprs

  datatype RuleAction = Alert | Pass | Drop | Reject | Log | UnknownAction

  datatype RuleOption = RuleOption(key: string, value: string)

  datatype SignatureRule = SignatureRule(
    action: RuleAction, protocol: Protocol, source: AddressExpr, sourcePorts: PortExpr, direction: string,
    destination: AddressExpr, destinationPorts: PortExpr, options: seq<RuleOption>,
    msg: string, content: string, sid: U32, rev: U32, classtype: string)

  function ActionName(a: RuleAction): string {
    match a
    case Alert => "alert"
    case Pass => "pass"
    case Drop => "drop"
    case Reject => "reject"
    case Log => "log"
    case UnknownAction => "unknown"
  }

  function ProtocolName(p: Protocol): string {
    match p
    case Tcp => "tcp"
    case Udp => "udp"
    case Icmp => "icmp"
    case IpProto => "ip"
    case Dns => "dns"
    case Http => "http"
    case AnyProto => "any"
    case UnknownProto => "unknown"
  }

  function ParseAction(token: string): Option<RuleAction> {
    var v := ToLower(token);
    if v == "alert" then Some(Alert)
    else if v == "pass" then Some(Pass)
    else if v == "drop" then Some(Drop)
    else if v == "reject" then Some(Reject)
    else if v == "log" then Some(Log)
    else None
  }

  function ParseProtocol(token: string): Option<Protocol> {
    var v := ToLower(token);
    if v == "tcp" then Some(Tcp)
    else if v == "udp" then Some(Udp)
    else if v == "icmp" then Some(Icmp)
    else if v == "ip" then Some(IpProto)
    else if v == "dns" then Some(Dns)
    else if v == "http" then Some(Http)
    else if v == "any" then Some(AnyProto)
    else None
  }

  // ---- option lists ----

  /** Adds the trimmed text when it is not blank. */
  function PushPart(cur: string): seq<string> { if Trim(cur) == "" then [] else [Trim(cur)] }

  /** Parts between semicolons, quotes and backslashes respected; `cur` is the part being read. */
  function SplitBody(rest: string, cur: string, inQuote: bool, escaped: bool): seq<string> {
    if rest == "" then PushPart(cur)
    else
      var c, tail := rest[0], rest[1..];
      if escaped then SplitBody(tail, cur + [c], inQuote, false)
      else if c == '\\' then SplitBody(tail, cur + [c], inQuote, true)
      else if c == '"' then SplitBody(tail, cur + [c], !inQuote, false)
      else if c == ';' && !inQuote then PushPart(cur) + SplitBody(tail, "", inQuote, false)
      else SplitBody(tail, cur + [c], inQuote, false)
  }

  method SplitOptionBody(body: string) returns (out: seq<string>)
    ensures out == SplitBody(body, "", false, false)
  {
    hide Trim;
    out := [];
    var cur := "";
    var inQuote, escaped := false, false;
    ghost var all := SplitBody(body, "", false, false);
    assert body[0..] == body && [] + all == all;
    for i := 0 to |body|
      invariant all == out + SplitBody(body[i..], cur, inQuote, escaped)
    {
      var c := body[i];
      assert body[i..][0] == c && body[i..][1..] == body[i + 1..];
      if escaped { cur := cur + [c]; escaped := false; continue; }
      if c == '\\' { cur := cur + [c]; escaped := true; continue; }
      if c == '"' { inQuote := !inQuote; cur := cur + [c]; continue; }
      if c == ';' && !inQuote {
        ConcatAssoc(out, PushPart(cur), SplitBody(body[i + 1..], "", inQuote, false));
        if Trim(cur) != "" { out := out + [Trim(cur)]; }
        cur := "";
        continue;
      }
      cur := cur + [c];
    }
    assert body[|body|..] == "";
    if Trim(cur) != "" { out := out + [Trim(cur)]; }
  }

  function ReadOption(part: string): RuleOption {
    var colon := IndexOf(part, ':');
    if colon == |part| then RuleOption(ToLower(Trim(part)), "true")
    else RuleOption(ToLower(Trim(part[..colon])), StripQuotes(Trim(part[colon + 1..])))
  }

  /** Options in order; those with an empty key only leave a diagnostic. */
  function ReadOptions(parts: seq<string>): seq<RuleOption> {
    if parts == [] then [] else
      (if ReadOption(parts[0]).key == "" then [] else [ReadOption(parts[0])]) + ReadOptions(parts[1..])
  }

  /** Value of the first option with this key. */
  function OptionValue(options: seq<RuleOption>, key: string): Option<string> {
    if options == [] then None else if options[0].key == key then Some(options[0].value) else OptionValue(options[1..], key)
  }

  function ValueOr(v: Option<string>, default: string): string { if v.None? then default else v.value }

  function NumberOr(v: Option<string>): U32 {
    if v.None? then 0 else
      match BoundedValue(v.value, 0xffff_ffff)
      case None => 0
      case Some(n) => n
  }

  // ---- reading a line ----

  function CollapseFrom(s: string, afterSpace: bool): string {
    if s == "" then ""
    else if IsSpace(s[0]) then (if afterSpace then "" else " ") + CollapseFrom(s[1..], true)
    else [s[0]] + CollapseFrom(s[1..], false)
  }

  function CollapseSpaces(s: string): string { Trim(CollapseFrom(s, false)) }

  /** The five option values that a rule keeps beside its option list. */
  function FromOptions(
    action: RuleAction, protocol: Protocol, source: AddressExpr, sourcePorts: PortExpr, direction: string,
    destination: AddressExpr, destinationPorts: PortExpr, options: seq<RuleOption>): SignatureRule
  {
    SignatureRule(action, protocol, source, sourcePorts, direction, destination, destinationPorts, options,
                  ValueOr(OptionValue(options, "msg"), ""), ValueOr(OptionValue(options, "content"), ""),
                  NumberOr(OptionValue(options, "sid")), NumberOr(OptionValue(options, "rev")),
                  ValueOr(OptionValue(options, "classtype"), ""))
  }

  function ParseTokens(tokens: seq<string>, body: string): Parsed<SignatureRule> {
    if |tokens| != 7 then Rejected
    else
      var action, protocol := ParseAction(tokens[0]), ParseProtocol(tokens[1]);
      if action.None? || protocol.None? then Rejected
      else match ParseAddressExpr(tokens[2])
        case Rejected => Rejected
        case Undefined => Undefined
        case Parsed(source) =>
          match ParsePortExpr(tokens[3])
          case Rejected => Rejected
          case Undefined => Undefined
          case Parsed(sourcePorts) =>
            if tokens[4] != "->" && tokens[4] != "<>" then Rejected
            else match ParseAddressExpr(tokens[5])
              case Rejected => Rejected
              case Undefined => Undefined
              case Parsed(destination) =>
                match ParsePortExpr(tokens[6])
                case Rejected => Rejected
                case Undefined => Undefined
                case Parsed(destinationPorts) =>
                  Parsed(FromOptions(action.value, protocol.value, source, sourcePorts, tokens[4], destination, destinationPorts,
                                     ReadOptions(SplitBody(body, "", false, false))))
  }

  function ParseRuleLine(line: string): Parsed<SignatureRule> {
    var clean := Trim(RemoveComment(line));
    var open, close := IndexOf(clean, '('), LastIndexOf(clean, ')');
    if clean == "" || open == |clean| || close < 0 || close < open then Rejected
    else ParseTokens(Words(CollapseSpaces(clean[..open])), clean[open + 1..close])
  }

  // ---- printing ----

  /** Inserts behind every option whose key is not greater: one step of a stable sort. */
  function Place(sorted: seq<RuleOption>, x: RuleOption): seq<RuleOption> {
    if sorted != [] && Less(x.key, sorted[|sorted| - 1].key) then
      Place(sorted[..|sorted| - 1], x) + [sorted[|sorted| - 1]]
    else sorted + [x]
  }

  /** Stands for the library's stable sort by key (SortIsStable). */
  function SortOptions(options: seq<RuleOption>): seq<RuleOption> {
    if options == [] then [] else Place(SortOptions(options[..|options| - 1]), options[|options| - 1])
  }

  function OptionText(o: RuleOption): string {
    o.key + (if o.value != "true" then ":\"" + o.value + "\"" else "")
  }

  function OptionsText(options: seq<RuleOption>): string {
    if options == [] then "" else OptionText(options[0]) + "; " + OptionsText(options[1..])
  }

  function HeaderTokens(r: SignatureRule): seq<string>
    requires Printable(r.source) && Printable(r.destination)
  {
    [ActionName(r.action), ProtocolName(r.protocol), AddressToString(r.source), PortToString(r.sourcePorts),
     r.direction, AddressToString(r.destination), PortToString(r.destinationPorts)]
  }

  /** Every token followed by one space. */
  function Spaced(tokens: seq<string>): string {
    if tokens == [] then "" else tokens[0] + " " + Spaced(tokens[1..])
  }

  function NormalizeRule(r: SignatureRule): string
    requires Printable(r.source) && Printable(r.destination)
  {
    Spaced(HeaderTokens(r)) + "(" + OptionsText(SortOptions(r.options)) + ")"
  }

  /** What makes two rules the same detection logic: all fields but the option list, of which only the content counts. */
  function RuleKey(r: SignatureRule): string
    requires Printable(r.source) && Printable(r.destination)
  {
    Join(HeaderTokens(r) + [r.content], '|')
  }

  // ---- stable sort ----

  function WithKey(options: seq<RuleOption>, key: string): seq<RuleOption> {
    if options == [] then [] else
      WithKey(options[..|options| - 1], key) + (if options[|options| - 1].key == key then [options[|options| - 1]] else [])
  }

  ghost predicate SortedByKey(options: seq<RuleOption>) {
    forall i, j :: 0 <= i < j < |options| ==> !Less(options[j].key, options[i].key)
  }

  lemma {:induction false} PlaceMembers(sorted: seq<RuleOption>, x: RuleOption)
    ensures multiset(Place(sorted, x)) == multiset(sorted) + multiset{x}
    ensures forall o :: o in Place(sorted, x) <==> o in sorted || o == x
  {
    hide Less;
    if sorted != [] && Less(x.key, sorted[|sorted| - 1].key) {
      PlaceMembers(sorted[..|sorted| - 1], x);
      assert sorted == sorted[..|sorted| - 1] + [sorted[|sorted| - 1]];
    }
  }

  lemma {:induction false} PlaceSorted(sorted: seq<RuleOption>, x: RuleOption)
    requires SortedByKey(sorted)
    ensures SortedByKey(Place(sorted, x))
  {
    hide Less;
    if sorted != [] && Less(x.key, sorted[|sorted| - 1].key) {
      var init, last := sorted[..|sorted| - 1], sorted[|sorted| - 1];
      PlaceSorted(init, x);
      PlaceMembers(init, x);
      LessTotal(x.key, last.key);
      SortedSnoc(Place(init, x), last);
    } else {
      forall o | o in sorted ensures !Less(x.key, o.key) { NotBelow(sorted, o, x); }
      SortedSnoc(sorted, x);
    }
  }

  lemma SortedSnoc(sorted: seq<RuleOption>, last: RuleOption)
    requires SortedByKey(sorted) && forall o :: o in sorted ==> !Less(last.key, o.key)
    ensures SortedByKey(sorted + [last])
  {
    hide Less;
    assert forall i :: 0 <= i < |sorted| ==> sorted[i] in sorted;
  }

  lemma NotBelow(sorted: seq<RuleOption>, o: RuleOption, x: RuleOption)
    requires SortedByKey(sorted) && o in sorted && !Less(x.key, sorted[|sorted| - 1].key)
    ensures !Less(x.key, o.key)
  {
    hide Less;
    var last := sorted[|sorted| - 1];
    var i :| 0 <= i < |sorted| && sorted[i] == o;
    assert o == last || !Less(last.key, o.key);
    if Less(x.key, o.key) {
      LessTotal(o.key, last.key);
      if o.key != last.key { LessTransitive(x.key, o.key, last.key); }
    }
  }

  lemma {:induction false} PlaceWithKey(sorted: seq<RuleOption>, x: RuleOption, key: string)
    ensures WithKey(Place(sorted, x), key) == WithKey(sorted, key) + (if x.key == key then [x] else [])
  {
    hide Less, WithKey;
    if sorted != [] && Less(x.key, sorted[|sorted| - 1].key) {
      var init, last := sorted[..|sorted| - 1], sorted[|sorted| - 1];
      PlaceWithKey(init, x, key);
      LessTotal(x.key, last.key);
      assert sorted == init + [last];
      WithKeySnoc(Place(init, x), last, key);
      WithKeySnoc(init, last, key);
    } else {
      WithKeySnoc(sorted, x, key);
    }
  }

  lemma WithKeySnoc(options: seq<RuleOption>, last: RuleOption, key: string)
    ensures WithKey(options + [last], key) == WithKey(options, key) + (if last.key == key then [last] else [])
  {
    assert (options + [last])[..|options|] == options;
  }

  /** Sorted, a rearrangement, and options of one key keep their order. */
  lemma {:induction false} SortIsStable(options: seq<RuleOption>, key: string)
    ensures SortedByKey(SortOptions(options))
    ensures multiset(SortOptions(options)) == multiset(options)
    ensures forall o :: o in SortOptions(options) <==> o in options
    ensures WithKey(SortOptions(options), key) == WithKey(options, key)
  {
    hide Place;
    if options != [] {
      var init, last := options[..|options| - 1], options[|options| - 1];
      SortIsStable(init, key);
      PlaceMembers(SortOptions(init), last);
      PlaceSorted(SortOptions(init), last);
      PlaceWithKey(SortOptions(init), last, key);
      assert options == init + [last];
    }
  }

  lemma {:induction false} SortAgain(options: seq<RuleOption>)
    requires SortedByKey(options)
    ensures SortOptions(options) == options
  {
    if options != [] {
      SortAgain(options[..|options| - 1]);
      assert options == options[..|options| - 1] + [options[|options| - 1]];
    }
  }

  lemma {:induction false} FirstWithKey(options: seq<RuleOption>, key: string)
    ensures OptionValue(options, key) == if WithKey(options, key) == [] then None else Some(WithKey(options, key)[0].value)
    decreases |options|
  {
    if options != [] {
      FirstWithKey(options[1..], key);
      WithKeyCons(options, key);
    }
  }

  lemma {:induction false} WithKeyCons(options: seq<RuleOption>, key: string)
    requires options != []
    ensures WithKey(options, key) == (if options[0].key == key then [options[0]] else []) + WithKey(options[1..], key)
    decreases |options|
  {
    hide WithKey;
    var first := options[0];
    if |options| == 1 {
      assert options == [] + [first] && options[1..] == [];
      WithKeySnoc([], first, key);
      NoneWithKey(key);
    } else {
      var init, last := options[..|options| - 1], options[|options| - 1];
      WithKeyCons(init, key);
      assert options == init + [last] && options[1..] == init[1..] + [last];
      WithKeySnoc(init, last, key);
      WithKeySnoc(init[1..], last, key);
    }
  }

  lemma NoneWithKey(key: string)
    ensures WithKey([], key) == []
  {}

  /** Sorting keeps the value that every key resolves to. */
  lemma SortKeepsValues(options: seq<RuleOption>, key: string)
    ensures OptionValue(SortOptions(options), key) == OptionValue(options, key)
  {
    hide SortOptions, WithKey;
    SortIsStable(options, key);
    FirstWithKey(options, key);
    FirstWithKey(SortOptions(options), key);
  }

  // ---- packets ----

  /** What a rule reads of a packet: addresses and protocol number, ports, and the texts of its DNS message. */
  datatype PacketView = PacketView(
    ipv4: Option<(U32, U32, U8)>, tcp: Option<(U16, U16)>, udp: Option<(U16, U16)>,
    dns: Option<(seq<string>, seq<string>)>)

  predicate ProtocolMatches(p: Protocol, v: PacketView) {
    match p
    case AnyProto => true
    case IpProto => v.ipv4.Some?
    case Tcp => v.ipv4.Some? && v.tcp.Some?
    case Udp => v.ipv4.Some? && v.udp.Some?
    case Icmp => v.ipv4.Some? && v.ipv4.value.2 == 1
    case Dns => v.ipv4.Some? && v.dns.Some?
    case Http =>
      v.ipv4.Some? && v.tcp.Some? && (v.tcp.value.0 == 80 || v.tcp.value.0 == 443 || v.tcp.value.1 == 80 || v.tcp.value.1 == 443)
    case UnknownProto => false
  }

  function Ports(v: PacketView): (U16, U16) {
    if v.tcp.Some? then v.tcp.value else if v.udp.Some? then v.udp.value else (0, 0)
  }

  predicate Mentions(text: string, content: string) {
    FindText(ToLower(text), ToLower(content)) < |text|
  }

  predicate ContentSeen(content: string, v: PacketView) {
    v.dns.Some? && ((exists n :: n in v.dns.value.0 && Mentions(n, content)) || exists t :: t in v.dns.value.1 && Mentions(t, content))
  }

  predicate RuleMatchesPacket(r: SignatureRule, v: PacketView) {
    && ProtocolMatches(r.protocol, v)
    && v.ipv4.Some?
    && (var (src, dst, _) := v.ipv4.value;
        var (sp, dp) := Ports(v);
        var both := r.direction == "<>";
        || (AddressMatches(r.source, src) && AddressMatches(r.destination, dst) && PortMatches(r.sourcePorts, sp) && PortMatches(r.destinationPorts, dp))
        || (both && AddressMatches(r.source, dst) && AddressMatches(r.destination, src) && PortMatches(r.sourcePorts, dp) && PortMatches(r.destinationPorts, sp)))
    && (r.content != "" ==> ContentSeen(r.content, v))
  }

  /** The same packet seen from its destination. */
  function Reversed(v: PacketView): PacketView {
    PacketView(
      if v.ipv4.None? then None else Some((v.ipv4.value.1, v.ipv4.value.0, v.ipv4.value.2)),
      if v.tcp.None? then None else Some((v.tcp.value.1, v.tcp.value.0)),
      if v.udp.None? then None else Some((v.udp.value.1, v.udp.value.0)),
      v.dns)
  }

  /** A two-way rule does not care about the direction of a packet. */
  lemma TwoWayIsSymmetric(r: SignatureRule, v: PacketView)
    requires r.direction == "<>"
    ensures RuleMatchesPacket(r, Reversed(v)) == RuleMatchesPacket(r, v)
  {
    hide AddressMatches, PortMatches, Mentions;
  }
}
