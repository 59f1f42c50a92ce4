/**
 * A rule printed in normal form and read again. Every read rule has a certain
 * shape; for all rules of that shape the exact condition is proved under which
 * the normal form reads back as the same rule with its options sorted.
 */
module Reparse {
  import opened Text
  import opened Ipv4
  import opened Exprs
  import opened Signature
  import opened OptionScan
  import opened RuleHeader

  /** The five kept values are those of the options, as every read rule has them. */
  predicate Derived(r: SignatureRule) {
    r == FromOptions(r.action, r.protocol, r.source, r.sourcePorts, r.direction, r.destination, r.destinationPorts, r.options)
  }

  /** What every read rule satisfies (ReadRulesAreShaped). */
  predicate ReadShape(r: SignatureRule) {
    && r.action != UnknownAction && r.protocol != UnknownProto
    && (r.direction == "->" || r.direction == "<>")
    && Networked(r.source) && Networked(r.destination)
    && (forall v :: v in r.source.variables + r.destination.variables ==> Clear(v))
    && Ordered(r.sourcePorts) && Ordered(r.destinationPorts)
    && (forall o :: o in r.options ==> ReadKey(o.key))
    && Derived(r)
  }

  /**
   * The condition: no lone `!` and no empty list among the expressions, nothing
   * of the line taken for a comment, every option kept by the splitter.
   */
  predicate Rereadable(r: SignatureRule)
    requires Printable(r.source) && Printable(r.destination)
  {
    && WellFormedAddresses(r.source) && WellFormedPorts(r.sourcePorts)
    && WellFormedAddresses(r.destination) && WellFormedPorts(r.destinationPorts)
    && RemoveComment(NormalizeRule(r)) == NormalizeRule(r)
    && forall o :: o in r.options ==> Kept(o)
  }

  // ---- header ----

  lemma HeaderIsClear(r: SignatureRule)
    requires ReadShape(r)
    ensures Printable(r.source) && Printable(r.destination)
    ensures |HeaderTokens(r)| == 7 && HeaderTokens(r)[0] != "" && AllClear(HeaderTokens(r))
  {
    hide Clear, AddressToString, PortToString, ActionName, ProtocolName, IsNetwork, Variable, ReadKey, Derived, Ordered;
    ActionReads(r.action);
    ProtocolReads(r.protocol);
    AddressesAreClear(r.source);
    AddressesAreClear(r.destination);
    PortsAreClear(r.sourcePorts);
    PortsAreClear(r.destinationPorts);
    ArrowsAreClear();
  }

  lemma ArrowsAreClear()
    ensures Clear("->") && Clear("<>")
  {}

  /** Well-formed expressions print something. */
  lemma ExpressionsPrint(r: SignatureRule)
    requires ReadShape(r) && Printable(r.source) && Printable(r.destination)
    requires WellFormedAddresses(r.source) && WellFormedPorts(r.sourcePorts)
    requires WellFormedAddresses(r.destination) && WellFormedPorts(r.destinationPorts)
    ensures NonEmpty(HeaderTokens(r)) == HeaderTokens(r)
  {
    hide Clear, AddressToString, PortToString, ParseAddressExpr, ParsePortExpr, ActionName, ProtocolName, NonEmpty, Networked,
      ReadKey, Derived, Ordered, WellFormedAddresses, WellFormedPorts;
    ActionReads(r.action);
    ProtocolReads(r.protocol);
    AddressRoundTripIff(r.source);
    AddressRoundTripIff(r.destination);
    PortRoundTripIff(r.sourcePorts);
    PortRoundTripIff(r.destinationPorts);
    NothingReadsAsNothing();
    NamesPrint(r.protocol);
    var tokens := HeaderTokens(r);
    assert forall i :: 0 <= i < 7 ==> tokens[i] != "";
    NonEmptyKeepsAll(tokens);
  }

  lemma NothingReadsAsNothing()
    ensures ParseAddressExpr("") == Rejected && ParsePortExpr("") == Rejected
  {
    TrimTight("");
  }

  lemma NamesPrint(p: Protocol)
    ensures ProtocolName(p) != ""
  {}

  // ---- the tokens and the option block ----

  lemma TokensReadBack(r: SignatureRule, body: string)
    requires ReadShape(r) && Printable(r.source) && Printable(r.destination)
    requires WellFormedAddresses(r.source) && WellFormedPorts(r.sourcePorts)
    requires WellFormedAddresses(r.destination) && WellFormedPorts(r.destinationPorts)
    ensures ParseTokens(HeaderTokens(r), body) ==
            Parsed(FromOptions(r.action, r.protocol, r.source, r.sourcePorts, r.direction, r.destination, r.destinationPorts,
                               ReadOptions(SplitBody(body, "", false, false))))
  {
    hide AddressToString, PortToString, ParseAddressExpr, ParsePortExpr, SplitBody, ReadOptions, ActionName, ProtocolName,
      ParseAction, ParseProtocol, FromOptions, IsNetwork, Variable, Clear, ReadKey, Derived, WellFormedAddresses, WellFormedPorts,
      Ordered, Networked;
    ActionReads(r.action);
    ProtocolReads(r.protocol);
    AddressRoundTripIff(r.source);
    AddressRoundTripIff(r.destination);
    PortRoundTripIff(r.sourcePorts);
    PortRoundTripIff(r.destinationPorts);
  }

  /** What parsed tokens say about the rule they give. */
  lemma ParsedTokens(tokens: seq<string>, body: string)
    requires ParseTokens(tokens, body).Parsed?
    ensures |tokens| == 7
    ensures var x := ParseTokens(tokens, body).value;
            && ParseAddressExpr(tokens[2]) == Parsed(x.source) && ParsePortExpr(tokens[3]) == Parsed(x.sourcePorts)
            && ParseAddressExpr(tokens[5]) == Parsed(x.destination) && ParsePortExpr(tokens[6]) == Parsed(x.destinationPorts)
            && x.options == ReadOptions(SplitBody(body, "", false, false))
  {
    hide ParseAddressExpr, ParsePortExpr, SplitBody, ReadOptions, ParseAction, ParseProtocol, OptionValue, NumberOr;
  }

  // ---- the whole line ----

  lemma LineParts(header: string, body: string)
    requires header != "" && !IsSpace(header[0]) && '(' !in header
    ensures var line := header + "(" + body + ")";
            && Trim(line) == line && IndexOf(line, '(') == |header| && LastIndexOf(line, ')') == |line| - 1
            && line[..|header|] == header && line[|header| + 1..|line| - 1] == body
  {
    var line := header + "(" + body + ")";
    TrimTight(line);
    assert forall i :: 0 <= i < |header| ==> line[i] == header[i];
    assert line[|header|] == '(' && line[|line| - 1] == ')';
  }

  /** What reading a printed line comes down to: the tokens that are not empty, and a piece of the options. */
  lemma PrintedLineReads(r: SignatureRule) returns (n: nat)
    requires ReadShape(r) && Printable(r.source) && Printable(r.destination)
    requires ParseRuleLine(NormalizeRule(r)).Parsed?
    ensures PieceEnds(OptionsText(SortOptions(r.options)), n)
    ensures n == |OptionsText(SortOptions(r.options))| ==> RemoveComment(NormalizeRule(r)) == NormalizeRule(r)
    ensures ParseRuleLine(NormalizeRule(r)) == ParseTokens(NonEmpty(HeaderTokens(r)), OptionsText(SortOptions(r.options))[..n])
  {
    hide HeaderTokens, Spaced, SortOptions, OptionsText, RemoveComment, Trim, IndexOf, LastIndexOf, Words, CollapseSpaces,
      ParseTokens, ReadShape, NonEmpty, Clear;
    var tokens, body := HeaderTokens(r), OptionsText(SortOptions(r.options));
    var header := Spaced(tokens);
    HeaderIsClear(r);
    HeaderReads(tokens);
    SpacedHasNoParen(tokens);
    n := LineIsCut(header, body);
  }

  /** A printed line that holds no comment reads as its tokens and all its options. */
  lemma CleanLineReads(r: SignatureRule)
    requires ReadShape(r) && Printable(r.source) && Printable(r.destination)
    requires RemoveComment(NormalizeRule(r)) == NormalizeRule(r)
    ensures ParseRuleLine(NormalizeRule(r)) == ParseTokens(NonEmpty(HeaderTokens(r)), OptionsText(SortOptions(r.options)))
  {
    hide HeaderTokens, Spaced, SortOptions, OptionsText, RemoveComment, Trim, IndexOf, LastIndexOf, Words, CollapseSpaces,
      ParseTokens, ReadShape, NonEmpty, Clear;
    var tokens, body := HeaderTokens(r), OptionsText(SortOptions(r.options));
    HeaderIsClear(r);
    HeaderReads(tokens);
    SpacedHasNoParen(tokens);
    LineParts(Spaced(tokens), body);
  }

  /**
   * Printing a rule in normal form and reading the line gives the rule back,
   * its options stably sorted, exactly when it is rereadable.
   */
  lemma NormalFormReadsBackIff(r: SignatureRule)
    requires ReadShape(r)
    ensures Printable(r.source) && Printable(r.destination)
    ensures ParseRuleLine(NormalizeRule(r)) == Parsed(r.(options := SortOptions(r.options))) <==> Rereadable(r)
  {
    hide ParseRuleLine, NormalizeRule, HeaderTokens, ReadShape, SortOptions, OptionsText, RemoveComment, Kept, NonEmpty,
      WellFormedAddresses, WellFormedPorts;
    HeaderIsClear(r);
    if Rereadable(r) { RereadableReads(r); }
    if ParseRuleLine(NormalizeRule(r)) == Parsed(r.(options := SortOptions(r.options))) { ReadIsRereadable(r); }
  }

  lemma RereadableReads(r: SignatureRule)
    requires ReadShape(r) && Printable(r.source) && Printable(r.destination) && Rereadable(r)
    ensures ParseRuleLine(NormalizeRule(r)) == Parsed(r.(options := SortOptions(r.options)))
  {
    hide ParseRuleLine, NormalizeRule, HeaderTokens, SortOptions, OptionsText, RemoveComment, Kept, NonEmpty, SplitBody,
      ReadOptions, ParseTokens, FromOptions, ReadKey, Clear, Networked, Ordered, WellFormedAddresses, WellFormedPorts, Derived;
    var sorted := SortOptions(r.options);
    CleanLineReads(r);
    ExpressionsPrint(r);
    TokensReadBack(r, OptionsText(sorted));
    SortIsStable(r.options, "");
    assert OptionsText(sorted)[..|OptionsText(sorted)|] == OptionsText(sorted);
    PieceReadsIff(sorted, |OptionsText(sorted)|);
    SameValues(r, sorted);
  }

  lemma ReadIsRereadable(r: SignatureRule)
    requires ReadShape(r) && Printable(r.source) && Printable(r.destination)
    requires ParseRuleLine(NormalizeRule(r)) == Parsed(r.(options := SortOptions(r.options)))
    ensures Rereadable(r)
  {
    hide ParseRuleLine, NormalizeRule, SortOptions, OptionsText, RemoveComment, Kept, NonEmpty, SplitBody, ReadOptions, ParseTokens,
      FromOptions, ReadKey, Clear, Networked, Ordered, WellFormedAddresses, WellFormedPorts, Derived, AddressToString, PortToString,
      ParseAddressExpr, ParsePortExpr, ActionName, ProtocolName;
    var sorted := SortOptions(r.options);
    var n := PrintedLineReads(r);
    HeaderIsClear(r);
    var tokens := HeaderTokens(r);
    ParsedTokens(NonEmpty(tokens), OptionsText(sorted)[..n]);
    NonEmptyClear(tokens);
    AddressRoundTripIff(r.source);
    AddressRoundTripIff(r.destination);
    PortRoundTripIff(r.sourcePorts);
    PortRoundTripIff(r.destinationPorts);
    SortIsStable(r.options, "");
    PieceReadsIff(sorted, n);
  }

  lemma SameValues(r: SignatureRule, sorted: seq<RuleOption>)
    requires Derived(r) && sorted == SortOptions(r.options)
    ensures FromOptions(r.action, r.protocol, r.source, r.sourcePorts, r.direction, r.destination, r.destinationPorts, sorted)
            == r.(options := sorted)
  {
    hide OptionValue, SortOptions, NumberOr;
    SortKeepsValues(r.options, "msg");
    SortKeepsValues(r.options, "content");
    SortKeepsValues(r.options, "sid");
    SortKeepsValues(r.options, "rev");
    SortKeepsValues(r.options, "classtype");
  }

  /** Reading the normal form keeps the detection logic: same key, same matches, and printing again gives the same line. */
  lemma NormalFormIsFixed(r: SignatureRule)
    requires ReadShape(r)
    ensures var back := r.(options := SortOptions(r.options));
            && ReadShape(back) && Printable(back.source) && Printable(back.destination)
            && Printable(r.source) && Printable(r.destination)
            && NormalizeRule(back) == NormalizeRule(r)
            && (Rereadable(back) <==> Rereadable(r))
            && RuleKey(back) == RuleKey(r)
            && (forall v :: RuleMatchesPacket(back, v) == RuleMatchesPacket(r, v))
            && (forall key :: OptionValue(back.options, key) == OptionValue(r.options, key))
  {
    hide SortOptions, AddressToString, PortToString, OptionsText, OptionValue, NumberOr, ReadKey, Clear, IsNetwork, Variable,
      RuleMatchesPacket, Kept, RemoveComment, WellFormedAddresses, WellFormedPorts;
    var back := r.(options := SortOptions(r.options));
    HeaderIsClear(r);
    SortIsStable(r.options, "");
    SortAgain(SortOptions(r.options));
    SameValues(r, SortOptions(r.options));
    forall key ensures OptionValue(back.options, key) == OptionValue(r.options, key) { SortKeepsValues(r.options, key); }
    forall v ensures RuleMatchesPacket(back, v) == RuleMatchesPacket(r, v) { OptionsDoNotMatch(r, back.options, v); }
  }

  lemma OptionsDoNotMatch(r: SignatureRule, options: seq<RuleOption>, v: PacketView)
    ensures RuleMatchesPacket(r.(options := options), v) == RuleMatchesPacket(r, v)
  {}

  // ---- every read rule has the shape ----

  /** So for every line that reads, the exact condition on its rule is known. */
  lemma EveryReadRule(line: string)
    requires ParseRuleLine(line).Parsed?
    ensures var r := ParseRuleLine(line).value;
            && Printable(r.source) && Printable(r.destination)
            && (ParseRuleLine(NormalizeRule(r)) == Parsed(r.(options := SortOptions(r.options))) <==> Rereadable(r))
  {
    hide ParseRuleLine, NormalizeRule, ReadShape, SortOptions, Rereadable;
    ReadRulesAreShaped(line);
    NormalFormReadsBackIff(ParseRuleLine(line).value);
  }

  lemma ReadRulesAreShaped(line: string)
    requires ParseRuleLine(line).Parsed?
    ensures ReadShape(ParseRuleLine(line).value)
  {
    hide ParseAddressExpr, ParsePortExpr, SplitBody, ReadOptions, ParseAction, ParseProtocol, OptionValue, NumberOr, IsNetwork,
      Variable, Ordered, Networked, Words, CollapseSpaces, Trim, RemoveComment, IndexOf, LastIndexOf, ReadKey, Clear;
    var clean := Trim(RemoveComment(line));
    var open, close := IndexOf(clean, '('), LastIndexOf(clean, ')');
    var tokens, body := Words(CollapseSpaces(clean[..open])), clean[open + 1..close];
    ReadExprsAreShaped(tokens[2]);
    ReadExprsAreShaped(tokens[3]);
    ReadExprsAreShaped(tokens[5]);
    ReadExprsAreShaped(tokens[6]);
    ReadKeysAreKeys(body);
    ReadNamesAreKnown(tokens[0], tokens[1]);
    TokensAreClear(clean[..open]);
    ReadVariablesAreClear(tokens[2]);
    ReadVariablesAreClear(tokens[5]);
  }

  lemma ReadNamesAreKnown(action: string, protocol: string)
    ensures ParseAction(action) != Some(UnknownAction) && ParseProtocol(protocol) != Some(UnknownProto)
  {
    hide ToLower;
  }

  // ---- keys ----

  lemma {:induction false} LowerKeepsSeparators(s: string, inQuote: bool, escaped: bool)
    ensures FirstSeparator(ToLower(s), inQuote, escaped) == FirstSeparator(s, inQuote, escaped)
    decreases |s|
  {
    hide FirstSeparator;
    SeparatorStep(s, inQuote, escaped);
    SeparatorStep(ToLower(s), inQuote, escaped);
    if s != "" {
      assert ToLower(s)[1..] == ToLower(s[1..]);
      LowerKeepsSeparators(s[1..], QuoteNext(s[0], inQuote, escaped), EscapeNext(s[0], escaped));
    }
  }

  predicate NoSeparator(s: string) { FirstSeparator(s, false, false) == |s| }

  lemma {:induction false} TrimLeftKeepsWhole(s: string)
    requires NoSeparator(s)
    ensures NoSeparator(TrimLeft(s))
  {
    if s != "" && IsSpace(s[0]) { TrimLeftKeepsWhole(s[1..]); }
  }

  lemma PrefixKeepsWhole(s: string, n: nat)
    requires NoSeparator(s) && n <= |s|
    ensures NoSeparator(s[..n])
  {
    hide FirstSeparator;
    CutSeparator(s, n, false, false);
  }

  lemma TrimKeepsWhole(s: string)
    requires NoSeparator(s)
    ensures NoSeparator(Trim(s))
  {
    hide NoSeparator, TrimLeft, TrimRight;
    TrimLeftKeepsWhole(s);
    var d := TrimRightDecomposes(TrimLeft(s));
    PrefixKeepsWhole(TrimLeft(s), d);
  }

  /** A key read from a text without separator is a read key, unless it is empty. */
  lemma KeyIsRead(s: string)
    requires NoSeparator(s) && ':' !in s
    ensures var k := ToLower(Trim(s)); k != "" ==> ReadKey(k)
  {
    hide FirstSeparator, Trim, ToLower;
    var a, b := TrimDecomposes(s);
    var t := Trim(s);
    TrimKeepsWhole(s);
    LowerKeepsSeparators(t, false, false);
    LowerIdempotent(t);
    assert forall i :: 0 <= i < |t| ==> t[i] == s[a + i];
    LowerTight(t);
  }

  lemma LowerTight(t: string)
    requires Tight(t) && ':' !in t
    ensures Tight(ToLower(t)) && ':' !in ToLower(t)
  {
    assert forall i :: 0 <= i < |t| ==> ToLower(t)[i] == LowerChar(t[i]) != ':';
  }

  lemma OptionKeyIsRead(part: string)
    requires NoSeparator(part)
    ensures ReadOption(part).key != "" ==> ReadKey(ReadOption(part).key)
  {
    hide NoSeparator, Trim, ToLower, StripQuotes, ReadKey, IndexOf;
    var colon := IndexOf(part, ':');
    PrefixKeepsWhole(part, colon);
    assert ':' !in part[..colon];
    assert part[..|part|] == part;
    KeyIsRead(part[..colon]);
  }

  lemma {:induction false} ReadKeysAreKeys(body: string)
    ensures forall o :: o in ReadOptions(SplitBody(body, "", false, false)) ==> ReadKey(o.key)
    decreases |body|
  {
    hide SplitBody, FirstSeparator, ReadKey, ReadOptions, Trim, PushPart;
    var p := FirstSeparator(body, false, false);
    SplitAtSeparator(body, "", false, false);
    CutSeparator(body, p, false, false);
    assert "" + body[..p] == body[..p];
    if p < |body| {
      ReadKeysAreKeys(body[p + 1..]);
      FirstKeyIsRead(body[..p], SplitBody(body[p + 1..], "", false, false));
    } else {
      NoOptions();
      FirstKeyIsRead(body[..p], []);
    }
  }

  lemma NoOptions()
    ensures ReadOptions([]) == []
  {}

  lemma FirstKeyIsRead(cur: string, more: seq<string>)
    requires NoSeparator(cur) && forall o :: o in ReadOptions(more) ==> ReadKey(o.key)
    ensures forall o :: o in ReadOptions(PushPart(cur) + more) ==> ReadKey(o.key)
  {
    hide NoSeparator, Trim, ReadKey, ReadOption;
    TrimKeepsWhole(cur);
    OptionKeyIsRead(Trim(cur));
    assert [] + more == more;
    if Trim(cur) != "" { assert (PushPart(cur) + more)[1..] == more; }
  }

  // ---- variables ----

  lemma {:induction false} WordsAreClear(s: string)
    requires '(' !in s
    ensures AllClear(Words(s))
    decreases |s|
  {
    var a := TrimLeftDecomposes(s);
    var t := TrimLeft(s);
    if t != "" {
      var k := WordEnd(t);
      assert forall i :: 0 <= i < |t| ==> t[i] == s[a + i];
      assert '(' !in t[k..];
      WordsAreClear(t[k..]);
      assert Words(s) == [t[..k]] + Words(t[k..]);
    }
  }

  lemma {:induction false} CollapseHasNoParen(s: string, afterSpace: bool)
    requires '(' !in s
    ensures '(' !in CollapseFrom(s, afterSpace)
  {
    if s != "" { CollapseHasNoParen(s[1..], IsSpace(s[0])); }
  }

  lemma TokensAreClear(s: string)
    requires '(' !in s
    ensures AllClear(Words(CollapseSpaces(s)))
  {
    hide Words, Trim, CollapseFrom;
    CollapseHasNoParen(s, false);
    var c := CollapseFrom(s, false);
    var a, b := TrimDecomposes(c);
    assert forall i :: 0 <= i < b - a ==> Trim(c)[i] == c[a + i];
    WordsAreClear(Trim(c));
  }

  lemma PieceIsClear(s: string, a: nat, b: nat)
    requires Clear(s) && a <= b <= |s|
    ensures Clear(s[a..b])
  {}

  lemma TrimIsClear(s: string)
    requires Clear(s)
    ensures Clear(Trim(s))
  {
    hide Trim, Clear;
    var a, b := TrimDecomposes(s);
    PieceIsClear(s, a, b);
  }

  lemma {:induction false} FieldsAreClear(s: string, d: char)
    requires Clear(s)
    ensures AllClear(Fields(s, d))
    decreases |s|
  {
    var i := IndexOf(s, d);
    if i < |s| { FieldsAreClear(s[i + 1..], d); }
  }

  lemma {:induction false} PartsAreClear(parts: seq<string>)
    requires AllClear(parts)
    ensures ParseParts(parts).Some? ==> forall v :: v in ParseParts(parts).value.1 ==> Clear(v)
  {
    hide Trim, ParseCidr, Clear;
    if parts != [] {
      assert Clear(parts[0]);
      TrimIsClear(parts[0]);
      PartsAreClear(parts[1..]);
    }
  }

  lemma HeadIsClear(token: string)
    requires Clear(token)
    ensures ReadHead(token).List? ==> Clear(ReadHead(token).body)
  {
    hide Trim, Clear;
    TrimIsClear(token);
    var t0 := Trim(token);
    if t0 != "" {
      PieceIsClear(t0, 1, |t0|);
      assert t0[1..] == t0[1..|t0|];
      TrimIsClear(t0[1..]);
      var t := if t0[0] == '!' then Trim(t0[1..]) else t0;
      if |t| >= 2 { PieceIsClear(t, 1, |t| - 1); }
      if |t| == 1 { assert t[0] == '[' ==> t[0] != ']'; }
    }
  }

  lemma ReadVariablesAreClear(token: string)
    requires Clear(token)
    ensures ParseAddressExpr(token).Parsed? ==> forall v :: v in ParseAddressExpr(token).value.variables ==> Clear(v)
  {
    hide ParseParts, ReadHead, Fields, NonEmpty, Clear;
    HeadIsClear(token);
    match ReadHead(token)
    case List(negated, body) =>
      FieldsAreClear(body, ',');
      NonEmptyClear(Fields(body, ','));
      PartsAreClear(Split(body, ',', false));
    case _ =>
  }
}
