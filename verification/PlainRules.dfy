/**
 * Plain rules, which always read back from their normal form: keys and
 * variables of plain characters, values whose quotes are escaped. And a rule
 * line that does not.
 */
module PlainRules {
  import opened Text
  import opened Ipv4
  import opened Exprs
  import opened Signature
  import opened OptionScan
  import opened RuleHeader
  import opened Reparse

  predicate KeyChar(c: char) { 'a' <= c <= 'z' || IsDigit(c) || c == '_' || c == '-' || c == '.' }

  predicate GoodKey(k: string) { k != "" && forall i :: 0 <= i < |k| ==> KeyChar(k[i]) }

  predicate PlainText(s: string) { '"' !in s && '\\' !in s }

  /** Every quote comes behind a backslash that escapes it, and no escape is left open. */
  predicate Balanced(v: string, escaped: bool) {
    if v == "" then !escaped
    else if escaped then Balanced(v[1..], false)
    else if v[0] == '\\' then Balanced(v[1..], true)
    else v[0] != '"' && Balanced(v[1..], false)
  }

  /** The last character is not a backslash: the comment scanner looks back one character only. */
  predicate GoodValue(v: string) { Balanced(v, false) && (v != "" ==> v[|v| - 1] != '\\') }

  predicate GoodOption(o: RuleOption) { GoodKey(o.key) && GoodValue(o.value) }

  predicate GoodVariable(v: string) {
    v != "" && v[0] == '$' && forall i :: 1 <= i < |v| ==> IsAlnum(v[i]) || v[i] == '_'
  }

  /** Rules that a line can express: known names, well-formed expressions, plain keys, values with their quotes escaped. */
  predicate Rewritable(r: SignatureRule) {
    && r.action != UnknownAction && r.protocol != UnknownProto
    && (r.direction == "->" || r.direction == "<>")
    && Networked(r.source) && WellFormedAddresses(r.source)
    && Networked(r.destination) && WellFormedAddresses(r.destination)
    && (forall v :: v in r.source.variables + r.destination.variables ==> GoodVariable(v))
    && Ordered(r.sourcePorts) && WellFormedPorts(r.sourcePorts)
    && Ordered(r.destinationPorts) && WellFormedPorts(r.destinationPorts)
    && (forall o :: o in r.options ==> GoodOption(o))
    && Derived(r)
  }

  // ---- options ----

  lemma {:induction false} PlainHasNoSeparator(s: string)
    requires ';' !in s && PlainText(s)
    ensures FirstSeparator(s, false, false) == |s|
  {
    if s != "" { PlainHasNoSeparator(s[1..]); }
  }

  lemma GoodKeyReads(k: string)
    requires GoodKey(k)
    ensures ReadKey(k)
  {
    hide FirstSeparator;
    assert forall i :: 0 <= i < |k| ==> LowerChar(k[i]) == k[i];
    assert ToLower(k) == k;
    PlainHasNoSeparator(k);
  }

  /** A value whose quotes are escaped is passed over as one piece up to its closing quote, separators included. */
  lemma {:induction false} EscapedIsWhole(v: string, escaped: bool)
    requires Balanced(v, escaped)
    ensures Whole(v + "\"", true, escaped)
    decreases |v|
  {
    if v == "" {
      assert v + "\"" == "\"";
      assert "\""[1..] == "";
    } else {
      assert (v + "\"")[1..] == v[1..] + "\"";
      EscapedIsWhole(v[1..], !escaped && v[0] == '\\');
    }
  }

  lemma {:induction false} PlainThenWhole(s: string, rest: string)
    requires ';' !in s && PlainText(s)
    ensures Whole(s + rest, false, false) == Whole(rest, false, false)
  {
    if s == "" {
      assert s + rest == rest;
    } else {
      assert (s + rest)[1..] == s[1..] + rest;
      PlainThenWhole(s[1..], rest);
    }
  }

  lemma QuoteOpens(rest: string)
    ensures Whole("\"" + rest, false, false) == Whole(rest, true, false)
  {
    assert ("\"" + rest)[1..] == rest;
  }

  lemma GoodOptionIsKept(o: RuleOption)
    requires GoodOption(o)
    ensures Kept(o)
  {
    hide Whole;
    KeyIsPlain(o.key);
    var t := OptionText(o);
    if o.value == "true" {
      assert t == o.key + "";
      PlainThenWhole(o.key, "");
      NothingIsWhole();
    } else {
      var rest := o.value + "\"";
      assert t == (o.key + ":") + ("\"" + rest);
      PlainThenWhole(o.key + ":", "\"" + rest);
      QuoteOpens(rest);
      EscapedIsWhole(o.value, false);
    }
  }

  lemma KeyIsPlain(k: string)
    requires GoodKey(k)
    ensures ';' !in k && PlainText(k)
  {}

  lemma NothingIsWhole()
    ensures Whole("", false, false)
  {}

  // ---- header tokens ----

  /** Characters that neither quote, comment, separate nor open the option block. */
  predicate TokenChar(c: char) { !IsSpace(c) && c != '"' && c != '\'' && c != '#' && c != '(' }

  predicate TokenText(s: string) {
    && (forall i :: 0 <= i < |s| ==> TokenChar(s[i]))
    && forall i :: 0 <= i < |s| - 1 && s[i] == '/' ==> s[i + 1] != '/'
  }

  predicate Token(s: string) { s != "" && TokenText(s) }

  lemma TokenConcat(a: string, c: char, b: string)
    requires TokenText(a) && TokenText(b) && TokenChar(c) && c != '/'
    ensures TokenText(a + [c] + b)
  {
    var s := a + [c] + b;
    forall i | 0 <= i < |s| - 1 && s[i] == '/' ensures s[i + 1] != '/' {
      if i > |a| { assert s[i] == b[i - |a| - 1] && s[i + 1] == b[i - |a|]; }
    }
  }

  lemma {:induction false} TokenJoin(parts: seq<string>)
    requires forall i :: 0 <= i < |parts| ==> TokenText(parts[i])
    ensures TokenText(Join(parts, ','))
  {
    if |parts| > 1 {
      TokenJoin(parts[1..]);
      TokenConcat(parts[0], ',', Join(parts[1..], ','));
    }
  }

  lemma TokenPrefixed(any: bool, negated: bool, body: string)
    requires TokenText(body)
    ensures TokenText(Prefixed(any, negated, body))
  {
    if negated {
      TokenConcat("", '!', body);
      assert "" + ['!'] + body == "!" + body;
    } else {
      assert "" + body == body;
    }
  }

  lemma RangeTextIsToken(r: PortRange)
    ensures TokenText(RangeText(r))
  {
    RangeShape(r);
  }

  lemma PortsAreToken(e: PortExpr)
    requires WellFormedPorts(e)
    ensures Token(PortToString(e))
  {
    hide RangeText, TokenText;
    forall i | 0 <= i < |e.ranges| ensures TokenText(RangeTexts(e.ranges)[i]) { RangeTextIsToken(e.ranges[i]); }
    TokenJoin(RangeTexts(e.ranges));
    TokenPrefixed(e.any, e.negated, Join(RangeTexts(e.ranges), ','));
    if e.ranges != [] { RangeTextsGood(e.ranges); JoinShape(RangeTexts(e.ranges)); }
  }

  lemma CidrIsToken(r: CidrRange)
    requires r.prefix <= 32
    ensures TokenText(CidrToString(r))
  {
    hide TokenText, Ipv4ToString;
    MaskTwice(r.network, r.prefix);
    Ipv4Shape(Masked(r.network, r.prefix));
    AddressSlashPrefix(Ipv4ToString(Masked(r.network, r.prefix)), Decimal(r.prefix));
  }

  lemma AddressSlashPrefix(a: string, p: string)
    requires IsDecimal(p) && forall i :: 0 <= i < |a| ==> AddressChar(a[i])
    ensures TokenText(a + "/" + p)
  {
    var s := a + "/" + p;
    assert forall i :: 0 <= i < |a| ==> s[i] == a[i] != '/';
    assert forall i :: |a| < i < |s| ==> s[i] == p[i - |a| - 1] != '/';
  }

  lemma AddressesAreToken(e: AddressExpr)
    requires Networked(e) && WellFormedAddresses(e)
    requires forall v :: v in e.variables ==> GoodVariable(v)
    ensures Printable(e) && Token(AddressToString(e))
  {
    hide CidrToString, TokenText, IsNetwork, Variable;
    AddressPartsGood(e);
    var parts := NetworkTexts(e.ranges) + e.variables;
    forall i | 0 <= i < |parts| ensures TokenText(parts[i]) {
      if i < |e.ranges| {
        CidrIsToken(e.ranges[i]);
      } else {
        assert parts[i] in e.variables;
        VariableIsToken(parts[i]);
      }
    }
    TokenJoin(parts);
    TokenPrefixed(e.any, e.negated, Join(parts, ','));
    if parts != [] { JoinShape(parts); }
    if !e.any { assert parts != []; }
  }

  lemma VariableIsToken(v: string)
    requires GoodVariable(v)
    ensures TokenText(v)
  {}

  lemma NameIsToken(s: string)
    requires forall i :: 0 <= i < |s| ==> 'a' <= s[i] <= 'z'
    ensures TokenText(s)
  {}

  lemma NamesAreTokens(a: RuleAction, p: Protocol)
    requires a != UnknownAction && p != UnknownProto
    ensures Token(ActionName(a)) && Token(ProtocolName(p))
  {
    NameIsToken(ActionName(a));
    NameIsToken(ProtocolName(p));
  }

  lemma HeaderIsTokens(r: SignatureRule)
    requires Rewritable(r)
    ensures Printable(r.source) && Printable(r.destination)
    ensures |HeaderTokens(r)| == 7 && forall i :: 0 <= i < 7 ==> Token(HeaderTokens(r)[i])
  {
    hide Token, AddressToString, PortToString, ActionName, ProtocolName, IsNetwork, Variable;
    NamesAreTokens(r.action, r.protocol);
    AddressesAreToken(r.source);
    AddressesAreToken(r.destination);
    PortsAreToken(r.sourcePorts);
    PortsAreToken(r.destinationPorts);
    ArrowsAreTokens();
  }

  lemma ArrowsAreTokens()
    ensures Token("->") && Token("<>")
  {}

  // ---- comments ----

  lemma {:induction false} InsideSegment(line: string, i: nat, j: nat)
    requires i <= j <= |line|
    requires forall k :: i <= k < j && line[k] == '"' ==> k > 0 && line[k - 1] == '\\'
    ensures CommentStart(line, i, Some('"')) == CommentStart(line, j, Some('"'))
    decreases j - i
  {
    hide CommentAt;
    if i < j { InsideSegment(line, i + 1, j); }
  }

  lemma {:induction false} BalancedQuotes(v: string, escaped: bool)
    requires Balanced(v, escaped)
    ensures forall k :: 0 <= k < |v| && v[k] == '"' ==> if k == 0 then escaped else v[k - 1] == '\\'
  {
    if v != "" {
      var open := !escaped && v[0] == '\\';
      BalancedQuotes(v[1..], open);
      forall k | 0 <= k < |v| && v[k] == '"' ensures if k == 0 then escaped else v[k - 1] == '\\' {
        if k > 0 { assert v[1..][k - 1] == v[k]; }
        if k > 1 { assert v[1..][k - 2] == v[k - 1]; }
      }
    }
  }

  lemma QuoteAt(line: string, i: nat)
    requires 0 < i < |line| && line[i] == '"' && line[i - 1] != '\\'
    ensures CommentStart(line, i, None) == CommentStart(line, i + 1, Some('"'))
    ensures CommentStart(line, i, Some('"')) == CommentStart(line, i + 1, None)
  {}

  predicate OptionChar(c: char) { KeyChar(c) || c == ':' || c == ';' || c == ' ' }

  lemma OptionCharsHide(line: string, i: nat, j: nat)
    requires i <= j <= |line| && forall k :: i <= k < j ==> OptionChar(line[k])
    ensures CommentStart(line, i, None) == CommentStart(line, j, None)
  {
    OutsideSegment(line, i, j);
  }

  /** The quoted value hides whatever it holds from the comment scanner. */
  lemma QuotedOptionHides(line: string, a: nat, key: string, v: string)
    requires GoodKey(key) && GoodValue(v) && 0 < a && a + |key| + |v| + 5 <= |line|
    requires line[a..a + |key| + |v| + 5] == key + ":\"" + v + "\"; "
    ensures CommentStart(line, a, None) == CommentStart(line, a + |key| + |v| + 5, None)
  {
    hide CommentStart, GoodKey;
    var t := key + ":\"" + v + "\"; ";
    var b := a + |key| + 1;
    var c := b + 1 + |v|;
    assert forall k :: 0 <= k < |t| ==> line[a + k] == t[k];
    forall k | a <= k < b ensures OptionChar(line[k]) { assert line[k] == t[k - a]; KeyCharAt(key, v, k - a); }
    OptionCharsHide(line, a, b);
    assert line[b - 1] == t[|key|] == ':' && line[b] == t[|key| + 1] == '"';
    QuoteAt(line, b);
    forall k | b + 1 <= k < c ensures line[k] == v[k - b - 1] { assert line[k] == t[k - a]; }
    BalancedQuotes(v, false);
    forall k | b + 1 <= k < c && line[k] == '"' ensures k > 0 && line[k - 1] == '\\' {
      assert v[k - b - 1] == '"' && k > b + 1;
      assert line[k - 1] == v[k - b - 2];
    }
    InsideSegment(line, b + 1, c);
    assert line[c - 1] == if v == "" then '"' else v[|v| - 1];
    assert line[c] == t[c - a] == '"';
    QuoteAt(line, c);
    assert line[c + 1] == t[c + 1 - a] == ';' && line[c + 2] == t[c + 2 - a] == ' ';
    OptionCharsHide(line, c + 1, c + 3);
  }

  lemma KeyCharAt(key: string, v: string, k: nat)
    requires GoodKey(key) && k <= |key|
    ensures OptionChar((key + ":\"" + v + "\"; ")[k])
  {
    var t := key + ":\"" + v + "\"; ";
    if k < |key| { assert t[k] == key[k]; } else { assert t[k] == ':'; }
  }

  lemma BareOptionHides(line: string, a: nat, key: string)
    requires GoodKey(key) && a + |key| + 2 <= |line|
    requires line[a..a + |key| + 2] == key + "; "
    ensures CommentStart(line, a, None) == CommentStart(line, a + |key| + 2, None)
  {
    var t := key + "; ";
    forall k | a <= k < a + |t| ensures OptionChar(line[k]) { assert line[k] == t[k - a]; }
    OptionCharsHide(line, a, a + |t|);
  }

  lemma {:induction false} OptionsHide(front: string, options: seq<RuleOption>, back: string)
    requires front != "" && forall o :: o in options ==> GoodOption(o)
    ensures var line := front + OptionsText(options) + back;
            CommentStart(line, |front|, None) == CommentStart(line, |front| + |OptionsText(options)|, None)
    decreases |options|
  {
    hide CommentStart, GoodKey, GoodValue, OptionText;
    if options != [] {
      var o := options[0];
      assert o in options;
      var rest := OptionsText(options[1..]);
      var step := OptionText(o) + "; ";
      var line := front + OptionsText(options) + back;
      Regrouped(front, step, rest, back);
      OptionsHide(front + step, options[1..], back);
      OptionHides(line, |front|, o);
    }
  }

  lemma Regrouped(a: string, b: string, c: string, d: string)
    ensures a + (b + c) + d == (a + b) + c + d
    ensures (a + (b + c) + d)[|a|..|a| + |b|] == b
  {}

  lemma OptionHides(line: string, at: nat, o: RuleOption)
    requires GoodOption(o) && 0 < at && at + |OptionText(o) + "; "| <= |line|
    requires line[at..at + |OptionText(o) + "; "|] == OptionText(o) + "; "
    ensures CommentStart(line, at, None) == CommentStart(line, at + |OptionText(o) + "; "|, None)
  {
    hide CommentStart, GoodKey, GoodValue;
    var step := OptionText(o) + "; ";
    if o.value == "true" {
      assert step == o.key + "; ";
      BareOptionHides(line, at, o.key);
    } else {
      assert step == o.key + ":\"" + o.value + "\"; ";
      QuotedOptionHides(line, at, o.key, o.value);
    }
  }

  lemma {:induction false} SpacedIsPlain(tokens: seq<string>)
    requires forall i :: 0 <= i < |tokens| ==> Token(tokens[i])
    ensures var s := Spaced(tokens);
            && (forall i :: 0 <= i < |s| ==> s[i] == ' ' || TokenChar(s[i]))
            && (forall i :: 0 <= i < |s| - 1 && s[i] == '/' ==> s[i + 1] != '/')
            && (s != "" ==> s[|s| - 1] == ' ')
  {
    if tokens != [] {
      var t, rest := tokens[0], Spaced(tokens[1..]);
      assert Token(t);
      SpacedIsPlain(tokens[1..]);
      var s := Spaced(tokens);
      assert s == t + " " + rest;
      forall i | 0 <= i < |s| ensures s[i] == ' ' || TokenChar(s[i]) {
        if i < |t| { assert s[i] == t[i]; } else if i > |t| { assert s[i] == rest[i - |t| - 1]; }
      }
      forall i | 0 <= i < |s| - 1 && s[i] == '/' ensures s[i + 1] != '/' {
        if i < |t| - 1 { assert s[i] == t[i] && s[i + 1] == t[i + 1]; }
        if i > |t| { assert s[i] == rest[i - |t| - 1] && s[i + 1] == rest[i - |t|]; }
      }
      if rest != "" { assert s[|s| - 1] == rest[|rest| - 1]; }
    }
  }

  lemma HeaderHides(header: string, back: string)
    requires forall i :: 0 <= i < |header| ==> header[i] == ' ' || TokenChar(header[i])
    requires forall i :: 0 <= i < |header| - 1 && header[i] == '/' ==> header[i + 1] != '/'
    requires header != "" && header[|header| - 1] == ' '
    ensures CommentStart(header + "(" + back, 0, None) == CommentStart(header + "(" + back, |header| + 1, None)
  {
    var line := header + "(" + back;
    var n := |header| + 1;
    forall k | 0 <= k < n ensures line[k] != '"' && line[k] != '\'' && !CommentAt(line, k) {
      if k < |header| {
        assert line[k] == header[k];
        if k < |header| - 1 { assert line[k + 1] == header[k + 1]; }
      } else {
        assert line[k] == '(';
      }
    }
    OutsideSegment(line, 0, n);
  }

  /** Nothing of a printed rule is taken for a comment. */
  lemma PrintedHasNoComment(header: string, options: seq<RuleOption>)
    requires forall i :: 0 <= i < |header| ==> header[i] == ' ' || TokenChar(header[i])
    requires forall i :: 0 <= i < |header| - 1 && header[i] == '/' ==> header[i + 1] != '/'
    requires header != "" && header[|header| - 1] == ' '
    requires forall o :: o in options ==> GoodOption(o)
    ensures var line := header + "(" + OptionsText(options) + ")"; RemoveComment(line) == line
  {
    hide CommentStart;
    var body := OptionsText(options);
    var line := header + "(" + body + ")";
    assert line == header + "(" + (body + ")");
    HeaderHides(header, body + ")");
    OptionsHide(header + "(", options, ")");
    LastParen(line);
    assert line[..|line|] == line;
  }

  lemma LastParen(line: string)
    requires line != "" && line[|line| - 1] == ')'
    ensures CommentStart(line, |line| - 1, None) == |line|
  {}

  // ---- plain rules read back ----

  lemma PlainRuleHasShape(r: SignatureRule)
    requires Rewritable(r)
    ensures ReadShape(r)
  {
    hide GoodKey, ReadKey, Networked, Ordered, Derived, GoodVariable, Clear, WellFormedAddresses, WellFormedPorts, GoodValue;
    forall o | o in r.options ensures ReadKey(o.key) { GoodKeyReads(o.key); }
    forall v | v in r.source.variables + r.destination.variables ensures Clear(v) { GoodVariableIsClear(v); }
  }

  lemma GoodVariableIsClear(v: string)
    requires GoodVariable(v)
    ensures Clear(v)
  {}

  /** Plain rules read back from their normal form, options stably sorted. */
  lemma NormalFormReadsBack(r: SignatureRule)
    requires Rewritable(r)
    ensures Printable(r.source) && Printable(r.destination)
    ensures ParseRuleLine(NormalizeRule(r)) == Parsed(r.(options := SortOptions(r.options)))
  {
    hide SortOptions, OptionsText, RemoveComment, Spaced, HeaderTokens, Token, GoodOption, Kept, ReadShape, ParseRuleLine,
      WellFormedAddresses, WellFormedPorts, Networked, Ordered, Derived, GoodVariable;
    PlainRuleHasShape(r);
    HeaderIsTokens(r);
    var tokens := HeaderTokens(r);
    SpacedIsPlain(tokens);
    FirstTokenPrints(tokens);
    SortIsStable(r.options, "");
    PrintedHasNoComment(Spaced(tokens), SortOptions(r.options));
    forall o | o in r.options ensures Kept(o) { GoodOptionIsKept(o); }
    NormalFormReadsBackIff(r);
  }

  lemma FirstTokenPrints(tokens: seq<string>)
    requires tokens != [] && Token(tokens[0])
    ensures Spaced(tokens) != ""
  {}

  // ---- a line that does not ----

  const SPLIT_VALUE := "a\"b;c\"d"

  function SplitValueRule(): SignatureRule {
    FromOptions(Alert, Tcp, ANY_ADDRESS, ANY_PORT, "->", ANY_ADDRESS, ANY_PORT, [RuleOption("msg", SPLIT_VALUE)])
  }

  const SPLIT_LINE := "alert tcp any any -> any any (msg:a\"b;c\"d)"

  const SPLIT_BODY := "msg:a\"b;c\"d"

  lemma InQuotes()
    ensures Whole("b;c\"d", true, false)
  {
    assert "b;c\"d"[1..] == ";c\"d" && ";c\"d"[1..] == "c\"d" && "c\"d"[1..] == "\"d" && "\"d"[1..] == "d" && "d"[1..] == "";
    assert Whole("d", false, false);
    assert Whole("\"d", true, false);
    assert Whole("c\"d", true, false);
    assert Whole(";c\"d", true, false);
  }

  lemma OutOfQuotes()
    ensures !Whole("a\"b;c\"d\"", true, false)
  {
    assert "a\"b;c\"d\""[1..] == "\"b;c\"d\"" && "\"b;c\"d\""[1..] == "b;c\"d\"" && "b;c\"d\""[1..] == ";c\"d\"";
    assert !Whole(";c\"d\"", false, false);
    assert !Whole("b;c\"d\"", false, false);
    assert !Whole("\"b;c\"d\"", true, false);
  }

  lemma SplitValueIsNotKept()
    ensures !Kept(RuleOption("msg", SPLIT_VALUE))
  {
    hide Whole;
    var t := OptionText(RuleOption("msg", SPLIT_VALUE));
    assert t == "msg:" + ("\"" + "a\"b;c\"d\"");
    PlainThenWhole("msg:", "\"" + "a\"b;c\"d\"");
    QuoteOpens("a\"b;c\"d\"");
    OutOfQuotes();
  }

  lemma SplitBodyIsOne()
    ensures SplitBody(SPLIT_BODY, "", false, false) == [SPLIT_BODY]
  {
    hide Whole, SplitBody, FirstSeparator, Trim;
    var t := SPLIT_BODY;
    assert t == "msg:a" + ("\"" + "b;c\"d");
    PlainThenWhole("msg:a", "\"" + "b;c\"d");
    QuoteOpens("b;c\"d");
    InQuotes();
    WholeIff(t, ";", false, false);
    CutSeparator(t + ";", |t|, false, false);
    assert (t + ";")[..|t|] == t;
    SplitAtSeparator(t, "", false, false);
    assert "" + t[..|t|] == t;
    TrimTight(t);
  }

  lemma SplitOptionReads()
    ensures ReadOptions(SplitBody(SPLIT_BODY, "", false, false)) == [RuleOption("msg", SPLIT_VALUE)]
  {
    hide SplitBody, Trim, ToLower, IndexOf;
    SplitBodyIsOne();
    var t := SPLIT_BODY;
    ColonFollows("msg", SPLIT_VALUE);
    assert t == "msg" + (":" + SPLIT_VALUE);
    MsgReads();
    TrimTight(SPLIT_VALUE);
    assert [t][1..] == [];
  }

  lemma MsgReads()
    ensures ToLower(Trim("msg")) == "msg"
  {
    GoodKeyReads("msg");
    KeyReads("msg");
  }

  lemma SplitLineHasNoComment()
    ensures RemoveComment(SPLIT_LINE) == SPLIT_LINE
  {
    hide CommentStart;
    var line := SPLIT_LINE;
    OutsideSegment(line, 0, 35);
    QuoteAt(line, 35);
    InsideSegment(line, 36, 39);
    QuoteAt(line, 39);
    OutsideSegment(line, 40, 41);
    LastParen(line);
    assert |line| == 42 && line[..42] == line;
  }

  lemma SplitRuleHasShape()
    ensures ReadShape(SplitValueRule())
  {
    hide ReadKey, OptionValue, NumberOr;
    GoodKeyReads("msg");
  }

  lemma AnyPrints()
    ensures AddressToString(ANY_ADDRESS) == "any" && PortToString(ANY_PORT) == "any"
  {}

  const SPLIT_TOKENS := ["alert", "tcp", "any", "any", "->", "any", "any"]

  const SPLIT_HEADER := "alert tcp any any -> any any "

  lemma SplitTokens()
    ensures Printable(SplitValueRule().source) && Printable(SplitValueRule().destination)
    ensures HeaderTokens(SplitValueRule()) == SPLIT_TOKENS
  {
    hide AddressToString, PortToString, OptionValue, NumberOr;
    AnyPrints();
  }

  lemma LastTokens()
    ensures Spaced(["->", "any", "any"]) == "-> any any "
  {
    hide Spaced;
    NoTokens();
    assert ["any"] + [] == ["any"] && ["any"] + ["any"] == ["any", "any"] && ["->"] + ["any", "any"] == ["->", "any", "any"];
    SpacedCons("any", []);
    SpacedCons("any", ["any"]);
    SpacedCons("->", ["any", "any"]);
    assert "any" + (" " + "") == "any " && "any" + (" " + "any ") == "any any " && "->" + (" " + "any any ") == "-> any any ";
  }

  lemma NoTokens()
    ensures Spaced([]) == ""
  {}

  /** One token more in front, given as literals. */
  lemma SpacedFront(t: string, rest: seq<string>, text: string)
    requires Spaced(rest) == text
    ensures Spaced([t] + rest) == t + " " + text
  {
    hide Spaced;
    SpacedCons(t, rest);
    assert t + (" " + text) == t + " " + text;
  }

  lemma MiddleTokens()
    ensures Spaced(["any", "any", "->", "any", "any"]) == "any any -> any any "
  {
    hide Spaced;
    LastTokens();
    assert ["any"] + ["->", "any", "any"] == ["any", "->", "any", "any"];
    SpacedFront("any", ["->", "any", "any"], "-> any any ");
    assert ["any"] + ["any", "->", "any", "any"] == ["any", "any", "->", "any", "any"];
    SpacedFront("any", ["any", "->", "any", "any"], "any -> any any ");
  }

  lemma SplitHeader()
    ensures Spaced(SPLIT_TOKENS) == SPLIT_HEADER
  {
    hide Spaced;
    MiddleTokens();
    var middle := ["any", "any", "->", "any", "any"];
    SpacedFront("tcp", middle, "any any -> any any ");
    SpacedFront("alert", ["tcp"] + middle, "tcp any any -> any any ");
    assert ["alert"] + (["tcp"] + middle) == SPLIT_TOKENS;
  }

  lemma TokensPrint()
    ensures NonEmpty(SPLIT_TOKENS) == SPLIT_TOKENS
  {
    NonEmptyKeepsAll(SPLIT_TOKENS);
  }

  lemma SplitLineParts()
    ensures SPLIT_LINE == SPLIT_HEADER + "(" + SPLIT_BODY + ")"
  {}

  /** A line whose header and options are known, and which holds no comment. */
  lemma LineReads(header: string, body: string)
    requires header != "" && !IsSpace(header[0]) && '(' !in header
    requires var line := header + "(" + body + ")"; RemoveComment(line) == line
    ensures ParseRuleLine(header + "(" + body + ")") == ParseTokens(Words(CollapseSpaces(header)), body)
  {
    hide RemoveComment, Trim, IndexOf, LastIndexOf, Words, CollapseSpaces, ParseTokens;
    LineParts(header, body);
  }

  lemma SplitLineReads()
    ensures ParseRuleLine(SPLIT_LINE) == Parsed(SplitValueRule())
  {
    hide *;
    var r := SplitValueRule();
    SplitRuleHasShape();
    HeaderIsClear(r);
    SplitTokens();
    HeaderReads(SPLIT_TOKENS);
    SpacedHasNoParen(SPLIT_TOKENS);
    SplitHeader();
    TokensPrint();
    SplitLineHasNoComment();
    SplitLineParts();
    LineReads(SPLIT_HEADER, SPLIT_BODY);
    SplitRuleIsWellFormed();
    TokensReadBack(r, SPLIT_BODY);
    SplitOptionReads();
    SplitRuleFields();
  }

  lemma SplitRuleIsWellFormed()
    ensures var r := SplitValueRule();
            && WellFormedAddresses(r.source) && WellFormedPorts(r.sourcePorts)
            && WellFormedAddresses(r.destination) && WellFormedPorts(r.destinationPorts)
  {
    hide OptionValue, NumberOr;
  }

  lemma SplitRuleFields()
    ensures var r := SplitValueRule();
            FromOptions(r.action, r.protocol, r.source, r.sourcePorts, r.direction, r.destination, r.destinationPorts,
                        [RuleOption("msg", SPLIT_VALUE)]) == r
  {
    hide OptionValue, NumberOr;
  }

  /** The quotes of the value hide its semicolon in the line, and no longer do behind the quote that printing adds. */
  lemma QuotedSemicolonIsLost()
    ensures ParseRuleLine(SPLIT_LINE) == Parsed(SplitValueRule())
    ensures var r := SplitValueRule(); ParseRuleLine(NormalizeRule(r)) != Parsed(r.(options := SortOptions(r.options)))
  {
    hide ParseRuleLine, NormalizeRule, Kept, SortOptions, ReadShape;
    SplitLineReads();
    SplitValueIsNotKept();
    ReadRulesAreShaped(SPLIT_LINE);
    NormalFormReadsBackIff(SplitValueRule());
    assert RuleOption("msg", SPLIT_VALUE) in SplitValueRule().options;
  }
}
