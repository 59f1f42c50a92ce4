/** Port and address expressions of the rule language: reading, printing, matching. */
module Exprs {
  import opened Text
  import opened Ipv4

  datatype Protocol = Tcp | Udp | Icmp | IpProto | Dns | Http | AnyProto | UnknownProto

  datatype PortRange = PortRange(lo: U16, hi: U16)

  datatype PortExpr = PortExpr(any: bool, negated: bool, ranges: seq<PortRange>)

  datatype AddressExpr = AddressExpr(any: bool, negated: bool, ranges: seq<CidrRange>, variables: seq<string>)

  /** `Undefined`: the code asks an empty string for its first character. */
  datatype Parsed<+T> = Parsed(value: T) | Rejected | Undefined

  const ANY_PORT := PortExpr(true, false, [])
  const ANY_ADDRESS := AddressExpr(true, false, [], [])

  // ---- matching ----

  predicate InPorts(ranges: seq<PortRange>, port: U16) { exists r :: r in ranges && r.lo <= port <= r.hi }

  predicate InNetworks(ranges: seq<CidrRange>, ip: U32) { exists r :: r in ranges && Contains(r, ip) }

  predicate PortMatches(e: PortExpr, port: U16) {
    var hit := e.any || InPorts(e.ranges, port);
    if e.negated then !hit else hit
  }

  /** Variables never match: only the networks count. */
  predicate AddressMatches(e: AddressExpr, ip: U32) {
    var hit := e.any || InNetworks(e.ranges, ip);
    if e.negated then !hit else hit
  }

  method PortMatchesLoop(e: PortExpr, port: U16) returns (r: bool)
    ensures r == PortMatches(e, port)
  {
    var hit := e.any;
    if !e.any {
      for i := 0 to |e.ranges|
        invariant !hit && forall j :: 0 <= j < i ==> !(e.ranges[j].lo <= port <= e.ranges[j].hi)
      {
        if port >= e.ranges[i].lo && port <= e.ranges[i].hi { hit := true; break; }
      }
      assert hit <==> InPorts(e.ranges, port);
    }
    return if e.negated then !hit else hit;
  }

  method AddressMatchesLoop(e: AddressExpr, ip: U32) returns (r: bool)
    ensures r == AddressMatches(e, ip)
  {
    hide Contains;
    var hit := e.any;
    if !e.any {
      for i := 0 to |e.ranges|
        invariant !hit && forall j :: 0 <= j < i ==> !Contains(e.ranges[j], ip)
      {
        if Contains(e.ranges[i], ip) { hit := true; break; }
      }
      assert hit <==> InNetworks(e.ranges, ip);
    }
    return if e.negated then !hit else hit;
  }

  // ---- printing ----

  function RangeText(r: PortRange): string {
    Decimal(r.lo) + (if r.hi != r.lo then ":" + Decimal(r.hi) else "")
  }

  function RangeTexts(ranges: seq<PortRange>): (parts: seq<string>)
    ensures |parts| == |ranges| && forall i :: 0 <= i < |ranges| ==> parts[i] == RangeText(ranges[i])
  {
    seq(|ranges|, i requires 0 <= i < |ranges| => RangeText(ranges[i]))
  }

  function NetworkTexts(ranges: seq<CidrRange>): (parts: seq<string>)
    requires forall r :: r in ranges ==> r.prefix <= 32
    ensures |parts| == |ranges| && forall i :: 0 <= i < |ranges| ==> parts[i] == CidrToString(ranges[i])
  {
    seq(|ranges|, i requires 0 <= i < |ranges| => CidrToString(ranges[i]))
  }

  function Prefixed(any: bool, negated: bool, body: string): string {
    if any && !negated then "any" else (if negated then "!" else "") + body
  }

  function PortToString(e: PortExpr): string { Prefixed(e.any, e.negated, Join(RangeTexts(e.ranges), ',')) }

  predicate Printable(e: AddressExpr) { forall r :: r in e.ranges ==> r.prefix <= 32 }

  function AddressToString(e: AddressExpr): string
    requires Printable(e)
  {
    Prefixed(e.any, e.negated, Join(NetworkTexts(e.ranges) + e.variables, ','))
  }

  /** The output loop: a comma before every range but the first. */
  method PrintPorts(e: PortExpr) returns (out: string)
    ensures out == PortToString(e)
  {
    hide Join;
    if e.any && !e.negated { return "any"; }
    ghost var parts := RangeTexts(e.ranges);
    var body := "";
    assert parts[..0] == [];
    NothingJoined();
    for i := 0 to |e.ranges|
      invariant body == Join(parts[..i], ',')
    {
      var r := e.ranges[i];
      JoinOneMore(parts, i);
      if i > 0 { body := body + ","; }
      body := body + RangeText(r);
    }
    assert parts[..|parts|] == parts;
    out := (if e.negated then "!" else "") + body;
  }

  method PrintAddresses(e: AddressExpr) returns (out: string)
    requires Printable(e)
    ensures out == AddressToString(e)
  {
    hide CidrToString, Join, IsNetwork;
    if e.any && !e.negated { return "any"; }
    ghost var parts := NetworkTexts(e.ranges) + e.variables;
    var body := "";
    assert parts[..0] == [];
    NothingJoined();
    for i := 0 to |e.ranges|
      invariant body == Join(parts[..i], ',')
    {
      JoinOneMore(parts, i);
      assert e.ranges[i] in e.ranges;
      if i > 0 { body := body + ","; }
      body := body + CidrToString(e.ranges[i]);
    }
    for i := 0 to |e.variables|
      invariant body == Join(parts[..|e.ranges| + i], ',')
    {
      JoinOneMore(parts, |e.ranges| + i);
      if |e.ranges| > 0 || i > 0 { body := body + ","; }
      body := body + e.variables[i];
    }
    assert parts[..|parts|] == parts;
    out := (if e.negated then "!" else "") + body;
  }

  lemma NothingJoined()
    ensures Join([], ',') == ""
  {}

  lemma JoinOneMore(parts: seq<string>, i: nat)
    requires i < |parts|
    ensures Join(parts[..i + 1], ',') == (if i > 0 then Join(parts[..i], ',') + "," else "") + parts[i]
    ensures i == 0 ==> Join(parts[..i], ',') == ""
  {
    hide Join;
    assert parts[..i + 1] == parts[..i] + [parts[i]];
    JoinSnoc(parts[..i], parts[i], ',');
    NothingJoined();
    if i == 0 {
      assert parts[..i] == [];
      assert "" + parts[i] == parts[i];
    } else {
      assert Join(parts[..i], ',') + "," + parts[i] == Join(parts[..i], ',') + [','] + parts[i];
    }
  }

  // ---- reading ----

  function PortNumber(text: string): Option<U16> {
    match BoundedValue(text, 65535)
    case None => None
    case Some(n) => Some(n)
  }

  function ParseRange(token: string): Option<PortRange> {
    var t := Trim(token);
    var colon := IndexOf(t, ':');
    if colon == |t| then
      match PortNumber(t)
      case None => None
      case Some(p) => Some(PortRange(p, p))
    else
      var left, right := t[..colon], t[colon + 1..];
      var lo := if left == "" then Some(0) else PortNumber(left);
      var hi := if right == "" then Some(65535) else PortNumber(right);
      if lo.None? || hi.None? || lo.value > hi.value then None else Some(PortRange(lo.value, hi.value))
  }

  function ParseRanges(parts: seq<string>): Option<seq<PortRange>> {
    if parts == [] then Some([]) else
      var first, rest := ParseRange(parts[0]), ParseRanges(parts[1..]);
      if first.None? || rest.None? then None else Some([first.value] + rest.value)
  }

  /** A leading `!`, then the keyword or the list with its optional brackets removed. */
  datatype Head = Keyword(negated: bool) | List(negated: bool, body: string) | Empty | NoFront

  function ReadHead(token: string): Head {
    var t0 := Trim(token);
    if t0 == "" then Empty
    else
      var negated := t0[0] == '!';
      var t := if negated then Trim(t0[1..]) else t0;
      if t == "any" then Keyword(negated)
      else if t == "" then NoFront
      else List(negated, if t[0] == '[' && t[|t| - 1] == ']' then t[1..|t| - 1] else t)
  }

  function ParsePortExpr(token: string): Parsed<PortExpr> {
    match ReadHead(token)
    case Empty => Rejected
    case NoFront => Undefined
    case Keyword(negated) => Parsed(PortExpr(true, negated, []))
    case List(negated, body) =>
      match ParseRanges(Split(body, ',', false))
      case None => Rejected
      case Some(ranges) => Parsed(PortExpr(false, negated, ranges))
  }

  /** Networks and `$` variables, each list in order; blank parts are skipped. */
  function ParseParts(parts: seq<string>): Option<(seq<CidrRange>, seq<string>)> {
    if parts == [] then Some(([], [])) else
      var part, rest := Trim(parts[0]), ParseParts(parts[1..]);
      if rest.None? then None
      else if part == "" then rest
      else if part[0] == '$' then Some((rest.value.0, [part] + rest.value.1))
      else match ParseCidr(part)
        case None => None
        case Some(r) => Some(([r] + rest.value.0, rest.value.1))
  }

  function ParseAddressExpr(token: string): Parsed<AddressExpr> {
    match ReadHead(token)
    case Empty => Rejected
    case NoFront => Undefined
    case Keyword(negated) => Parsed(AddressExpr(true, negated, [], []))
    case List(negated, body) =>
      match ParseParts(Split(body, ',', false))
      case None => Rejected
      case Some(lists) => Parsed(AddressExpr(false, negated, lists.0, lists.1))
  }

  /** The reading loop of the port list: one range for each non-empty part. */
  method ParsePortExprLoop(token: string) returns (r: Parsed<PortExpr>)
    ensures r == ParsePortExpr(token)
  {
    hide ParseRange, Split, ReadHead;
    var head := ReadHead(token);
    if head.Empty? { return Rejected; }
    if head.NoFront? { return Undefined; }
    if head.Keyword? { return Parsed(PortExpr(true, head.negated, [])); }
    var parts := Split(head.body, ',', false);
    var ranges: seq<PortRange> := [];
    assert parts[0..] == parts;
    PrependOne(ranges, PortRange(0, 0), ParseRanges(parts));
    for i := 0 to |parts|
      invariant ParseRanges(parts) == Prepend(ranges, ParseRanges(parts[i..]))
    {
      assert parts[i..][0] == parts[i] && parts[i..][1..] == parts[i + 1..];
      var range := ParseRange(parts[i]);
      if range.None? { return Rejected; }
      PrependOne(ranges, range.value, ParseRanges(parts[i + 1..]));
      ranges := ranges + [range.value];
    }
    assert parts[|parts|..] == [] && ranges + [] == ranges;
    return Parsed(PortExpr(false, head.negated, ranges));
  }

  function Prepend<T>(front: seq<T>, rest: Option<seq<T>>): Option<seq<T>> {
    if rest.None? then None else Some(front + rest.value)
  }

  lemma PrependOne<T>(front: seq<T>, x: T, rest: Option<seq<T>>)
    ensures Prepend(front + [x], rest) == if rest.None? then None else Prepend(front, Some([x] + rest.value))
    ensures Prepend([], rest) == rest
  {
    if rest.Some? { assert front + [x] + rest.value == front + ([x] + rest.value) && [] + rest.value == rest.value; }
  }

  method ParseAddressExprLoop(token: string) returns (r: Parsed<AddressExpr>)
    ensures r == ParseAddressExpr(token)
  {
    hide ParseCidr, Split, ReadHead, Trim;
    var head := ReadHead(token);
    if head.Empty? { return Rejected; }
    if head.NoFront? { return Undefined; }
    if head.Keyword? { return Parsed(AddressExpr(true, head.negated, [], [])); }
    var parts := Split(head.body, ',', false);
    var ranges: seq<CidrRange>, variables: seq<string> := [], [];
    assert parts[0..] == parts;
    AfterNothing(ParseParts(parts));
    for i := 0 to |parts|
      invariant ParseParts(parts) == After(ranges, variables, ParseParts(parts[i..]))
    {
      assert parts[i..][0] == parts[i] && parts[i..][1..] == parts[i + 1..];
      var part := Trim(parts[i]);
      if part == "" { continue; }
      AfterOne(ranges, variables, part, ParseParts(parts[i + 1..]));
      if part[0] == '$' { variables := variables + [part]; continue; }
      var cidr := ParseCidr(part);
      if cidr.None? { return Rejected; }
      AfterRange(ranges, variables, cidr.value, ParseParts(parts[i + 1..]));
      ranges := ranges + [cidr.value];
    }
    assert parts[|parts|..] == [] && ranges + [] == ranges && variables + [] == variables;
    return Parsed(AddressExpr(false, head.negated, ranges, variables));
  }

  /** The lists read so far, in front of what the remaining parts give. */
  function After(ranges: seq<CidrRange>, variables: seq<string>, rest: Option<(seq<CidrRange>, seq<string>)>): Option<(seq<CidrRange>, seq<string>)> {
    if rest.None? then None else Some((ranges + rest.value.0, variables + rest.value.1))
  }

  lemma AfterNothing(rest: Option<(seq<CidrRange>, seq<string>)>)
    ensures After([], [], rest) == rest
  {
    if rest.Some? { assert [] + rest.value.0 == rest.value.0 && [] + rest.value.1 == rest.value.1; }
  }

  lemma AfterOne(ranges: seq<CidrRange>, variables: seq<string>, v: string, rest: Option<(seq<CidrRange>, seq<string>)>)
    ensures After(ranges, variables + [v], rest) ==
            if rest.None? then None else After(ranges, variables, Some((rest.value.0, [v] + rest.value.1)))
  {
    if rest.Some? { assert variables + [v] + rest.value.1 == variables + ([v] + rest.value.1); }
  }

  lemma AfterRange(ranges: seq<CidrRange>, variables: seq<string>, r: CidrRange, rest: Option<(seq<CidrRange>, seq<string>)>)
    ensures After(ranges + [r], variables, rest) ==
            if rest.None? then None else After(ranges, variables, Some(([r] + rest.value.0, rest.value.1)))
  {
    if rest.Some? { assert ranges + [r] + rest.value.0 == ranges + ([r] + rest.value.0); }
  }

  // ---- what the parser produces ----

  predicate Ordered(e: PortExpr) { forall r :: r in e.ranges ==> r.lo <= r.hi }

  predicate Variable(v: string) { v != "" && v[0] == '$' && ',' !in v && Tight(v) }

  predicate Networked(e: AddressExpr) {
    (forall r :: r in e.ranges ==> r.prefix <= 32 && IsNetwork(r)) && forall v :: v in e.variables ==> Variable(v)
  }

  lemma {:induction false} RangesOrdered(parts: seq<string>)
    ensures ParseRanges(parts).Some? ==> forall r :: r in ParseRanges(parts).value ==> r.lo <= r.hi
  {
    hide Trim, IndexOf;
    if parts != [] { RangesOrdered(parts[1..]); }
  }

  lemma {:induction false} PartsNetworked(parts: seq<string>)
    requires forall i :: 0 <= i < |parts| ==> ',' !in parts[i]
    ensures ParseParts(parts).Some? ==> Networked(AddressExpr(false, false, ParseParts(parts).value.0, ParseParts(parts).value.1))
  {
    hide Trim, ParseCidr, Masked;
    if parts != [] {
      PartsNetworked(parts[1..]);
      var a, b := TrimDecomposes(parts[0]);
      var part := Trim(parts[0]);
      assert forall i :: 0 <= i < |part| ==> part[i] == parts[0][a + i];
      assert ',' !in part;
    }
  }

  /** Read expressions have ordered port ranges, cleared networks and comma-free `$` variables; `any` comes without a list. */
  lemma ReadExprsAreShaped(token: string)
    ensures ParsePortExpr(token).Parsed? ==>
              Ordered(ParsePortExpr(token).value) && (ParsePortExpr(token).value.any ==> ParsePortExpr(token).value.ranges == [])
    ensures ParseAddressExpr(token).Parsed? ==>
              Networked(ParseAddressExpr(token).value)
              && (ParseAddressExpr(token).value.any ==> ParseAddressExpr(token).value.ranges == [] && ParseAddressExpr(token).value.variables == [])
  {
    hide ParseRanges, ParseParts, ReadHead, Fields, IsNetwork;
    match ReadHead(token)
    case List(negated, body) =>
      RangesOrdered(Split(body, ',', false));
      SplitCommaFree(body);
      PartsNetworked(Split(body, ',', false));
    case _ =>
  }

  lemma SplitCommaFree(body: string)
    ensures forall i :: 0 <= i < |Split(body, ',', false)| ==> ',' !in Split(body, ',', false)[i]
  {
    hide Fields;
    var parts := Split(body, ',', false);
    NonEmptySubset(Fields(body, ','));
    forall i | 0 <= i < |parts| ensures ',' !in parts[i] {
      assert parts[i] in parts;
      var j :| 0 <= j < |Fields(body, ',')| && Fields(body, ',')[j] == parts[i];
    }
  }

  lemma {:induction false} NonEmptySubset(parts: seq<string>)
    ensures forall p :: p in NonEmpty(parts) ==> p in parts && p != ""
  {
    if parts != [] { NonEmptySubset(parts[1..]); }
  }

  // ---- round trips ----

  predicate PortChar(c: char) { IsDigit(c) || c == ':' }

  lemma RangeShape(r: PortRange)
    ensures RangeText(r) != "" && IsDigit(RangeText(r)[0]) && IsDigit(RangeText(r)[|RangeText(r)| - 1])
    ensures forall i :: 0 <= i < |RangeText(r)| ==> PortChar(RangeText(r)[i])
  {}

  lemma PortNumberRoundTrip(n: U16)
    ensures PortNumber(Decimal(n)) == Some(n)
  {
    DecimalRoundTrip(n);
  }

  lemma RangeRoundTrip(r: PortRange)
    requires r.lo <= r.hi
    ensures ParseRange(RangeText(r)) == Some(r)
  {
    hide Decimal, ParseRange, PortNumber;
    RangeShape(r);
    PortNumberRoundTrip(r.lo);
    PortNumberRoundTrip(r.hi);
    if r.lo == r.hi {
      assert RangeText(r) == Decimal(r.lo) + "" == Decimal(r.lo);
      OnePortReads(Decimal(r.lo), r.lo);
    } else {
      assert RangeText(r) == Decimal(r.lo) + ":" + Decimal(r.hi);
      TwoPortsRead(Decimal(r.lo), Decimal(r.hi), r.lo, r.hi);
    }
  }

  lemma OnePortReads(a: string, n: U16)
    requires IsDecimal(a) && PortNumber(a) == Some(n)
    ensures ParseRange(a) == Some(PortRange(n, n))
  {
    hide IndexOf, Trim, PortNumber;
    TrimTight(a);
    assert ':' !in a;
  }

  lemma TwoPortsRead(a: string, b: string, lo: U16, hi: U16)
    requires IsDecimal(a) && IsDecimal(b) && PortNumber(a) == Some(lo) && PortNumber(b) == Some(hi) && lo <= hi
    ensures ParseRange(a + ":" + b) == Some(PortRange(lo, hi))
  {
    hide IndexOf, Trim, PortNumber;
    var t := a + ":" + b;
    assert t[0] == a[0] && t[|t| - 1] == b[|b| - 1];
    TrimTight(t);
    assert ':' !in a;
    ColonBetween(a, b);
  }

  lemma ColonBetween(a: string, b: string)
    requires ':' !in a
    ensures var t := a + ":" + b; IndexOf(t, ':') == |a| < |t| && t[..|a|] == a && t[|a| + 1..] == b
  {
    var t := a + ":" + b;
    assert t[|a|] == ':';
    assert forall i :: 0 <= i < |a| ==> t[i] == a[i];
  }

  lemma {:induction false} RangesRoundTrip(ranges: seq<PortRange>)
    requires forall r :: r in ranges ==> r.lo <= r.hi
    ensures ParseRanges(RangeTexts(ranges)) == Some(ranges)
  {
    hide ParseRange, RangeText;
    if ranges != [] {
      RangeRoundTrip(ranges[0]);
      RangesRoundTrip(ranges[1..]);
      assert RangeTexts(ranges)[1..] == RangeTexts(ranges[1..]);
      assert ranges == [ranges[0]] + ranges[1..];
    }
  }

  /** Text of a non-empty list whose parts are comma-free, non-empty and tight. */
  predicate GoodPart(p: string) { p != "" && ',' !in p && Tight(p) && p[0] != '!' && p[0] != '[' && p[0] != 'a' }

  lemma {:induction false} JoinShape(parts: seq<string>)
    requires parts != [] && parts[0] != "" && forall i :: 0 <= i < |parts| ==> GoodPart(parts[i])
    ensures var b := Join(parts, ','); b != "" && b[0] == parts[0][0] && !IsSpace(b[0]) && !IsSpace(b[|b| - 1])
    decreases |parts|
  {
    assert GoodPart(parts[0]);
    if |parts| > 1 {
      assert GoodPart(parts[1]);
      JoinShape(parts[1..]);
      var rest := Join(parts[1..], ',');
      var b := Join(parts, ',');
      assert b == parts[0] + "," + rest;
      assert b[|b| - 1] == rest[|rest| - 1];
    }
  }

  /** The printed list splits back into its parts. */
  lemma SplitOfJoin(parts: seq<string>)
    requires parts != [] && forall i :: 0 <= i < |parts| ==> GoodPart(parts[i])
    ensures Split(Join(parts, ','), ',', false) == parts
  {
    assert forall i :: 0 <= i < |parts| ==> GoodPart(parts[i]) && ',' !in parts[i] && parts[i] != "";
    FieldsOfJoin(parts, ',');
    NonEmptyKeepsAll(parts);
  }

  /** Reading the head of a printed list gives its sign and its body. */
  lemma HeadOfPrinted(negated: bool, parts: seq<string>)
    requires parts != [] && forall i :: 0 <= i < |parts| ==> GoodPart(parts[i])
    ensures ReadHead(Prefixed(false, negated, Join(parts, ','))) == List(negated, Join(parts, ','))
  {
    hide Trim, Join, ReadHead, Prefixed;
    assert GoodPart(parts[0]);
    JoinShape(parts);
    HeadOfBody(negated, Join(parts, ','));
  }

  lemma HeadOfBody(negated: bool, body: string)
    requires body != "" && Tight(body) && body[0] != '!' && body[0] != '[' && body[0] != 'a'
    ensures ReadHead(Prefixed(false, negated, body)) == List(negated, body)
  {
    hide Trim;
    TrimTight(body);
    if negated {
      var t := "!" + body;
      assert t[0] == '!' && t[1..] == body && t[|t| - 1] == body[|body| - 1];
      TrimTight(t);
      assert Prefixed(false, true, body) == t;
    } else {
      assert Prefixed(false, false, body) == body;
    }
  }

  lemma RangeTextsGood(ranges: seq<PortRange>)
    ensures forall i :: 0 <= i < |ranges| ==> GoodPart(RangeTexts(ranges)[i])
  {
    hide RangeText;
    forall i | 0 <= i < |ranges| ensures GoodPart(RangeTexts(ranges)[i]) { RangeShape(ranges[i]); }
  }

  predicate WellFormedPorts(e: PortExpr) { if e.any then !e.negated && e.ranges == [] else e.ranges != [] }

  /** Printing then reading gives an expression back exactly when it is plain `any` or a non-empty list of ordered ranges. */
  lemma PortRoundTripIff(e: PortExpr)
    ensures ParsePortExpr(PortToString(e)) == Parsed(e) <==> Ordered(e) && WellFormedPorts(e)
  {
    hide ParsePortExpr, PortToString, Ordered;
    ReadExprsAreShaped(PortToString(e));
    if Ordered(e) { OrderedPortsRoundTrip(e); }
  }

  lemma OrderedPortsRoundTrip(e: PortExpr)
    requires Ordered(e)
    ensures ParsePortExpr(PortToString(e)) == Parsed(e) <==> WellFormedPorts(e)
  {
    hide ParseRanges, ReadHead, Split, Join, RangeTexts;
    var body := Join(RangeTexts(e.ranges), ',');
    HeadOfAny();
    if e.any && !e.negated {
    } else if e.ranges == [] {
      NothingToJoin();
      HeadOfEmpty(e.negated);
    } else {
      assert PortToString(e) == Prefixed(false, e.negated, body);
      RangeTextsGood(e.ranges);
      HeadOfPrinted(e.negated, RangeTexts(e.ranges));
      SplitOfJoin(RangeTexts(e.ranges));
      RangesRoundTrip(e.ranges);
    }
  }

  lemma NothingToJoin()
    ensures Join(RangeTexts([]), ',') == "" && Join([], ',') == ""
  {}

  lemma HeadOfAny()
    ensures ReadHead("any") == Keyword(false)
  {
    TrimTight("any");
  }

  lemma HeadOfEmpty(negated: bool)
    ensures ReadHead(Prefixed(false, negated, "")) == if negated then NoFront else Empty
  {
    TrimTight("!");
    TrimTight("");
    assert "!"[1..] == "";
  }

  /** Equal text: both are plain `any`, or the sign and the list agree. */
  lemma SamePortText(a: PortExpr, b: PortExpr)
    requires Ordered(a) && Ordered(b) && PortToString(a) == PortToString(b)
    ensures a.any && !a.negated <==> b.any && !b.negated
    ensures !(a.any && !a.negated) ==> a.negated == b.negated && a.ranges == b.ranges
  {
    hide ParseRanges, ReadHead, Split, Join, RangeTexts, PortToString;
    PortText(a);
    PortText(b);
  }

  /** What reading the printed text tells about an expression. */
  lemma PortText(e: PortExpr)
    requires Ordered(e)
    ensures var h := ReadHead(PortToString(e));
            if e.any && !e.negated then h.Keyword?
            else if e.ranges == [] then h == (if e.negated then NoFront else Empty)
            else h.List? && h.negated == e.negated && ParseRanges(Split(h.body, ',', false)) == Some(e.ranges)
  {
    hide ParseRanges, ReadHead, Split, Join, RangeTexts;
    HeadOfAny();
    if e.any && !e.negated {
    } else if e.ranges == [] {
      NothingToJoin();
      HeadOfEmpty(e.negated);
    } else {
      assert PortToString(e) == Prefixed(false, e.negated, Join(RangeTexts(e.ranges), ','));
      RangeTextsGood(e.ranges);
      HeadOfPrinted(e.negated, RangeTexts(e.ranges));
      SplitOfJoin(RangeTexts(e.ranges));
      RangesRoundTrip(e.ranges);
    }
  }

  /**
   * Expressions with the same text match the same ports exactly when they agree
   * on being `any`, or when the list leaves no port out.
   */
  lemma PortTextDecides(a: PortExpr, b: PortExpr)
    requires Ordered(a) && Ordered(b) && PortToString(a) == PortToString(b)
    ensures (forall p: U16 :: PortMatches(a, p) == PortMatches(b, p))
            <==> a.any == b.any || forall p: U16 :: InPorts(a.ranges, p)
  {
    hide PortToString, InPorts;
    SamePortText(a, b);
    if a.any != b.any {
      forall p: U16 ensures (PortMatches(a, p) == PortMatches(b, p)) <==> InPorts(a.ranges, p) {}
    }
  }

  // ---- addresses ----

  lemma NetworkShape(r: CidrRange)
    requires r.prefix <= 32 && IsNetwork(r)
    ensures GoodPart(CidrToString(r)) && ParseCidr(CidrToString(r)) == Some(r) && CidrToString(r)[0] != '$'
  {
    hide IsNetwork, CidrToString, ParseCidr, Masked, Ipv4ToString;
    CidrShape(r);
    CidrRoundTrip(r);
    AddressTextIsPart(CidrToString(r));
  }

  lemma AddressTextIsPart(t: string)
    requires t != "" && Tight(t) && IsDigit(t[0]) && forall i :: 0 <= i < |t| ==> AddressChar(t[i]) || t[i] == '/'
    ensures GoodPart(t) && t[0] != '$'
  {}

  lemma {:induction false} VariablesRoundTrip(variables: seq<string>)
    requires forall v :: v in variables ==> Variable(v)
    ensures ParseParts(variables) == Some(([], variables))
  {
    hide ParseCidr, Trim;
    if variables != [] {
      assert Variable(variables[0]);
      TrimTight(variables[0]);
      VariablesRoundTrip(variables[1..]);
      assert variables == [variables[0]] + variables[1..];
    }
  }

  lemma {:induction false} PartsRoundTrip(ranges: seq<CidrRange>, variables: seq<string>)
    requires forall r :: r in ranges ==> r.prefix <= 32 && IsNetwork(r)
    requires forall v :: v in variables ==> Variable(v)
    ensures ParseParts(NetworkTexts(ranges) + variables) == Some((ranges, variables))
  {
    hide ParseCidr, CidrToString, Trim, Masked;
    if ranges == [] {
      assert NetworkTexts(ranges) + variables == variables;
      VariablesRoundTrip(variables);
    } else {
      var parts := NetworkTexts(ranges) + variables;
      NetworkShape(ranges[0]);
      TrimTight(CidrToString(ranges[0]));
      PartsRoundTrip(ranges[1..], variables);
      assert NetworkTexts(ranges)[1..] == NetworkTexts(ranges[1..]);
      assert parts[1..] == NetworkTexts(ranges[1..]) + variables;
      assert ranges == [ranges[0]] + ranges[1..];
    }
  }

  lemma AddressPartsGood(e: AddressExpr)
    requires Networked(e)
    ensures Printable(e)
    ensures forall i :: 0 <= i < |NetworkTexts(e.ranges) + e.variables| ==> GoodPart((NetworkTexts(e.ranges) + e.variables)[i])
  {
    hide CidrToString, Masked;
    var parts := NetworkTexts(e.ranges) + e.variables;
    forall i | 0 <= i < |parts| ensures GoodPart(parts[i]) {
      if i < |e.ranges| {
        NetworkShape(e.ranges[i]);
      } else {
        assert e.variables[i - |e.ranges|] in e.variables;
      }
    }
  }

  predicate WellFormedAddresses(e: AddressExpr) {
    if e.any then !e.negated && e.ranges == [] && e.variables == [] else e.ranges != [] || e.variables != []
  }

  lemma AddressText(e: AddressExpr)
    requires Networked(e)
    ensures Printable(e)
    ensures var h := ReadHead(AddressToString(e));
            if e.any && !e.negated then h == Keyword(false)
            else if e.ranges == [] && e.variables == [] then h == (if e.negated then NoFront else Empty)
            else h.List? && h.negated == e.negated && ParseParts(Split(h.body, ',', false)) == Some((e.ranges, e.variables))
  {
    hide ParseParts, ReadHead, Split, Join, NetworkTexts, IsNetwork, Variable, GoodPart;
    AddressPartsGood(e);
    HeadOfAny();
    var parts := NetworkTexts(e.ranges) + e.variables;
    if e.any && !e.negated {
    } else if e.ranges == [] && e.variables == [] {
      assert parts == [];
      NothingToJoin();
      HeadOfEmpty(e.negated);
    } else {
      assert AddressToString(e) == Prefixed(false, e.negated, Join(parts, ','));
      HeadOfPrinted(e.negated, parts);
      SplitOfJoin(parts);
      PartsRoundTrip(e.ranges, e.variables);
    }
  }

  /** Likewise for addresses: cleared networks and comma-free `$` variables. */
  lemma AddressRoundTripIff(e: AddressExpr)
    requires Printable(e)
    ensures ParseAddressExpr(AddressToString(e)) == Parsed(e) <==> Networked(e) && WellFormedAddresses(e)
  {
    hide ParseAddressExpr, AddressToString, Networked;
    ReadExprsAreShaped(AddressToString(e));
    if Networked(e) { NetworksRoundTrip(e); }
  }

  lemma NetworksRoundTrip(e: AddressExpr)
    requires Networked(e)
    ensures Printable(e)
    ensures ParseAddressExpr(AddressToString(e)) == Parsed(e) <==> WellFormedAddresses(e)
  {
    hide ParseParts, ReadHead, Split, AddressToString, IsNetwork, Variable;
    AddressText(e);
  }

  lemma SameAddressText(a: AddressExpr, b: AddressExpr)
    requires Networked(a) && Networked(b) && Printable(a) && Printable(b) && AddressToString(a) == AddressToString(b)
    ensures a.any && !a.negated <==> b.any && !b.negated
    ensures !(a.any && !a.negated) ==> a.negated == b.negated && a.ranges == b.ranges && a.variables == b.variables
  {
    hide ParseParts, ReadHead, Split, AddressToString, IsNetwork, Variable;
    AddressText(a);
    AddressText(b);
  }

  lemma AddressTextDecides(a: AddressExpr, b: AddressExpr)
    requires Networked(a) && Networked(b) && Printable(a) && Printable(b) && AddressToString(a) == AddressToString(b)
    ensures (forall ip: U32 :: AddressMatches(a, ip) == AddressMatches(b, ip))
            <==> a.any == b.any || forall ip: U32 :: InNetworks(a.ranges, ip)
  {
    hide AddressToString, InNetworks, IsNetwork, Variable;
    SameAddressText(a, b);
    if a.any != b.any {
      forall ip: U32 ensures (AddressMatches(a, ip) == AddressMatches(b, ip)) <==> InNetworks(a.ranges, ip) {}
    }
  }
}
