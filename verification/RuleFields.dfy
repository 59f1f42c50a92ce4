/** What a read rule keeps of its line: the seven header fields, the options, and the values taken from them; and what its key tells apart. */
module RuleFields {
  import opened Text
  import opened Ipv4
  import opened Exprs
  import opened Signature
  import opened RuleHeader
  import opened Reparse

  /** The value of the first option with the key, or the default. */
  ghost predicate FirstValue(options: seq<RuleOption>, key: string, value: string, default: string) {
    if exists i :: 0 <= i < |options| && options[i].key == key
    then exists i :: 0 <= i < |options| && options[i] == RuleOption(key, value) && forall j :: 0 <= j < i ==> options[j].key != key
    else value == default
  }

  lemma {:induction false} OptionValueIsFirst(options: seq<RuleOption>, key: string, default: string)
    ensures FirstValue(options, key, ValueOr(OptionValue(options, key), default), default)
  {
    if options != [] {
      if options[0].key == key {
        assert options[0] == RuleOption(key, options[0].value);
      } else {
        var rest := options[1..];
        OptionValueIsFirst(rest, key, default);
        var value := ValueOr(OptionValue(rest, key), default);
        assert forall i :: 1 <= i < |options| ==> options[i] == rest[i - 1];
        if i :| 0 <= i < |rest| && rest[i] == RuleOption(key, value) && forall j :: 0 <= j < i ==> rest[j].key != key {
          assert options[i + 1] == RuleOption(key, value);
          assert forall j :: 0 <= j < i + 1 ==> options[j].key != key;
        }
        if i :| 0 <= i < |options| && options[i].key == key { assert rest[i - 1].key == key; }
        if i :| 0 <= i < |rest| && rest[i].key == key { assert options[i + 1].key == key; }
      }
    }
  }

  /** The number that an option names, and zero when it names none that fits 32 bits. */
  lemma NumberIs(v: Option<string>)
    ensures if v.Some? && IsDecimal(v.value) && DecimalValue(v.value) < 0x1_0000_0000 then NumberOr(v) == DecimalValue(v.value) else NumberOr(v) == 0
  {}

  /** Every read rule keeps message, content and class of the first option of that key, and the numbers of sid and revision. */
  lemma ReadRuleKeepsValues(line: string)
    requires ParseRuleLine(line).Parsed?
    ensures var r := ParseRuleLine(line).value;
            && FirstValue(r.options, "msg", r.msg, "") && FirstValue(r.options, "content", r.content, "")
            && FirstValue(r.options, "classtype", r.classtype, "")
            && r.sid == NumberOr(OptionValue(r.options, "sid")) && r.rev == NumberOr(OptionValue(r.options, "rev"))
  {
    hide ParseTokens, RemoveComment, Trim, IndexOf, LastIndexOf, Words, CollapseSpaces, FirstValue, OptionValue, NumberOr;
    var clean := Trim(RemoveComment(line));
    var open, close := IndexOf(clean, '('), LastIndexOf(clean, ')');
    var r := ParseRuleLine(line).value;
    TokensKeepValues(Words(CollapseSpaces(clean[..open])), clean[open + 1..close]);
    OptionValueIsFirst(r.options, "msg", "");
    OptionValueIsFirst(r.options, "content", "");
    OptionValueIsFirst(r.options, "classtype", "");
  }

  /** The tokens in their places: action, protocol, source, its ports, arrow, destination, its ports. */
  lemma TokensKeepValues(tokens: seq<string>, body: string)
    requires ParseTokens(tokens, body).Parsed?
    ensures |tokens| == 7
    ensures var r := ParseTokens(tokens, body).value;
            && ParseAction(tokens[0]) == Some(r.action) && ParseProtocol(tokens[1]) == Some(r.protocol)
            && ParseAddressExpr(tokens[2]) == Parsed(r.source) && ParsePortExpr(tokens[3]) == Parsed(r.sourcePorts)
            && r.direction == tokens[4] && (tokens[4] == "->" || tokens[4] == "<>")
            && ParseAddressExpr(tokens[5]) == Parsed(r.destination) && ParsePortExpr(tokens[6]) == Parsed(r.destinationPorts)
            && r.options == ReadOptions(SplitBody(body, "", false, false))
            && r.msg == ValueOr(OptionValue(r.options, "msg"), "") && r.content == ValueOr(OptionValue(r.options, "content"), "")
            && r.classtype == ValueOr(OptionValue(r.options, "classtype"), "")
            && r.sid == NumberOr(OptionValue(r.options, "sid")) && r.rev == NumberOr(OptionValue(r.options, "rev"))
  {
    hide ParseAddressExpr, ParsePortExpr, SplitBody, ReadOptions, ParseAction, ParseProtocol, OptionValue, NumberOr;
  }

  // ---- single options ----

  /** Without a colon an option is a flag; with one, everything behind the first colon is its value, unquoted. */
  lemma OptionForms(key: string, value: string)
    requires key != "" && Tight(key) && ':' !in key
    ensures ReadOption(key) == RuleOption(ToLower(key), "true")
    ensures ReadOption(key + ":" + value) == RuleOption(ToLower(key), StripQuotes(Trim(value)))
  {
    hide Trim, StripQuotes, ToLower, IndexOf;
    TrimTight(key);
    var part := key + ":" + value;
    assert forall i :: 0 <= i < |key| ==> part[i] == key[i];
    assert part[|key|] == ':';
    assert IndexOf(part, ':') == |key| && part[..|key|] == key && part[|key| + 1..] == value;
    assert IndexOf(key, ':') == |key|;
  }

  // ---- keys ----

  lemma {:induction false} FrontsOfJoin(a: seq<string>, b: seq<string>, x: string, y: string, d: char)
    requires |a| == |b| && Join(a + [x], d) == Join(b + [y], d)
    requires forall i :: 0 <= i < |a| ==> d !in a[i] && d !in b[i]
    ensures a == b && x == y
  {
    if a != [] {
      var ta, tb := a[1..] + [x], b[1..] + [y];
      assert (a + [x])[1..] == ta && (b + [y])[1..] == tb;
      assert a[0] + [d] + Join(ta, d) == b[0] + [d] + Join(tb, d);
      FirstDelimiter(a[0], Join(ta, d), b[0], Join(tb, d), d);
      FrontsOfJoin(a[1..], b[1..], x, y, d);
      assert a == [a[0]] + a[1..] && b == [b[0]] + b[1..];
    }
  }

  predicate NoBars(r: SignatureRule)
    requires Printable(r.source) && Printable(r.destination)
  {
    forall i :: 0 <= i < 7 ==> '|' !in HeaderTokens(r)[i]
  }

  /** Two rules have one key exactly when their seven header fields print alike and they look for the same content. */
  lemma SameKeyIff(a: SignatureRule, b: SignatureRule)
    requires Printable(a.source) && Printable(a.destination) && Printable(b.source) && Printable(b.destination)
    requires NoBars(a) && NoBars(b)
    ensures RuleKey(a) == RuleKey(b) <==>
            a.action == b.action && a.protocol == b.protocol && a.direction == b.direction && a.content == b.content
            && AddressToString(a.source) == AddressToString(b.source) && PortToString(a.sourcePorts) == PortToString(b.sourcePorts)
            && AddressToString(a.destination) == AddressToString(b.destination) && PortToString(a.destinationPorts) == PortToString(b.destinationPorts)
  {
    hide Join, AddressToString, PortToString;
    if RuleKey(a) == RuleKey(b) {
      FrontsOfJoin(HeaderTokens(a), HeaderTokens(b), a.content, b.content, '|');
      var s, t := HeaderTokens(a), HeaderTokens(b);
      assert s[0] == t[0] && s[1] == t[1] && s[2] == t[2] && s[3] == t[3] && s[4] == t[4] && s[5] == t[5] && s[6] == t[6];
      NamesDiffer(a, b);
    }
  }

  lemma NamesDiffer(a: SignatureRule, b: SignatureRule)
    requires ActionName(a.action) == ActionName(b.action) && ProtocolName(a.protocol) == ProtocolName(b.protocol)
    ensures a.action == b.action && a.protocol == b.protocol
  {
    NameOfAction(a.action);
    NameOfAction(b.action);
    NameOfProtocol(a.protocol);
    NameOfProtocol(b.protocol);
  }

  lemma NameOfAction(x: RuleAction)
    ensures ParseAction(ActionName(x)) == if x == UnknownAction then None else Some(x)
  {
    if x == UnknownAction { assert ToLower("unknown") == "unknown" && "unknown"[0] == 'u'; } else { ActionReads(x); }
  }

  lemma NameOfProtocol(x: Protocol)
    ensures ParseProtocol(ProtocolName(x)) == if x == UnknownProto then None else Some(x)
  {
    if x == UnknownProto { assert ToLower("unknown") == "unknown" && |"unknown"| == 7; } else { ProtocolReads(x); }
  }
}
