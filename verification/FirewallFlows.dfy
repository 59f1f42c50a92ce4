/** Firewall rules said by the packets they name and by their text: matches, verdicts, scopes and broad denies. */
module FirewallFlows {
  import opened Text
  import opened Ipv4
  import opened Exprs
  import opened ExprMeaning
  import opened Firewall

  // ---- matches ----

  /** The rule that names every field of a tuple. */
  function OwnRule(t: Tuple, action: FirewallAction): FirewallRule {
    FirewallRule(t.chain, action, OneAddress(t.src), OneAddress(t.dst), OnePort(t.sport), OnePort(t.dport), t.protocol)
  }

  /** It matches exactly the tuples that agree in all four flow fields, and in chain and protocol unless one side leaves them open. */
  lemma OwnRuleMatches(t: Tuple, action: FirewallAction, u: Tuple)
    ensures RuleMatches(OwnRule(t, action), u) <==>
            u.src == t.src && u.dst == t.dst && u.sport == t.sport && u.dport == t.dport
            && (u.chain == t.chain || u.chain == UnknownChain || t.chain == UnknownChain)
            && (u.protocol == t.protocol || u.protocol == AnyProto || t.protocol == AnyProto)
  {
    hide AddressMatches, PortMatches;
    OneAddressMatches(t.src, u.src);
    OneAddressMatches(t.dst, u.dst);
    OnePortMatches(t.sport, u.sport);
    OnePortMatches(t.dport, u.dport);
  }

  /** With chain and protocol known, it matches its own tuple and no other one. */
  lemma OwnRuleMatchesOnlyItself(t: Tuple, action: FirewallAction, u: Tuple)
    requires u.chain != UnknownChain && u.protocol != AnyProto && t.chain != UnknownChain && t.protocol != AnyProto
    ensures RuleMatches(OwnRule(t, action), u) <==> u == t
  {
    hide RuleMatches;
    OwnRuleMatches(t, action, u);
  }

  /** A rule matches no tuple with a field that its expression for this field rejects, and every tuple of its chain and protocol that all four accept. */
  lemma FieldsDecide(r: FirewallRule, t: Tuple)
    ensures !AddressMatches(r.source, t.src) ==> !RuleMatches(r, t)
    ensures !AddressMatches(r.destination, t.dst) ==> !RuleMatches(r, t)
    ensures !PortMatches(r.sourcePorts, t.sport) ==> !RuleMatches(r, t)
    ensures !PortMatches(r.destinationPorts, t.dport) ==> !RuleMatches(r, t)
    ensures r.chain != t.chain && r.chain != UnknownChain && t.chain != UnknownChain ==> !RuleMatches(r, t)
    ensures r.protocol != t.protocol && r.protocol != AnyProto && t.protocol != AnyProto ==> !RuleMatches(r, t)
    ensures (&& r.chain == t.chain && r.protocol == t.protocol && AddressMatches(r.source, t.src) && AddressMatches(r.destination, t.dst)
             && PortMatches(r.sourcePorts, t.sport) && PortMatches(r.destinationPorts, t.dport)) ==> RuleMatches(r, t)
  {
    hide AddressMatches, PortMatches;
  }

  /** The written form of one field: a sign, brackets, and the parts. */
  datatype AddressField = AddressField(negated: bool, bracketed: bool, forms: seq<AddressForm>)

  datatype PortField = PortField(negated: bool, bracketed: bool, forms: seq<PortForm>)

  predicate ReadableAddresses(a: AddressField) { a.forms != [] && forall f :: f in a.forms ==> Writable(f) }

  predicate ReadablePorts(p: PortField) { p.forms != [] && forall f :: f in p.forms ==> !Crossed(f) }

  predicate NamesAddress(a: AddressField, ip: U32)
    requires ReadableAddresses(a)
  {
    (exists f :: f in a.forms && AddressIn(f, ip)) != a.negated
  }

  predicate NamesPort(p: PortField, port: U16) { (exists f :: f in p.forms && PortIn(f, port)) != p.negated }

  function AddressFieldText(a: AddressField): string { ListText(a.negated, a.bracketed, AddressTexts(a.forms)) }

  function PortFieldText(p: PortField): string { ListText(p.negated, p.bracketed, PortTexts(p.forms)) }

  lemma AddressFieldReads(a: AddressField, ip: U32)
    requires ReadableAddresses(a)
    ensures var read := ParseAddressExpr(AddressFieldText(a)); read.Parsed? && (AddressMatches(read.value, ip) <==> NamesAddress(a, ip))
  {
    hide ParseAddressExpr, ListText, AddressMatches, AddressIn, Writable;
    WrittenAddressesMatch(a.negated, a.bracketed, a.forms, ip);
  }

  lemma PortFieldReads(p: PortField, port: U16)
    requires ReadablePorts(p)
    ensures var read := ParsePortExpr(PortFieldText(p)); read.Parsed? && (PortMatches(read.value, port) <==> NamesPort(p, port))
  {
    hide ParsePortExpr, ListText, PortMatches, PortIn, Crossed;
    WrittenPortsMatch(p.negated, p.bracketed, p.forms, port);
  }

  /** A rule read from written fields matches exactly the tuples whose addresses and ports they name. */
  lemma WrittenFieldsMatch(
    chain: Direction, action: FirewallAction, protocol: Protocol, src: AddressField, dst: AddressField, sport: PortField, dport: PortField, t: Tuple)
    requires ReadableAddresses(src) && ReadableAddresses(dst) && ReadablePorts(sport) && ReadablePorts(dport)
    requires t.chain == chain && t.protocol == protocol
    ensures var s, d := ParseAddressExpr(AddressFieldText(src)), ParseAddressExpr(AddressFieldText(dst));
            var sp, dp := ParsePortExpr(PortFieldText(sport)), ParsePortExpr(PortFieldText(dport));
            && s.Parsed? && d.Parsed? && sp.Parsed? && dp.Parsed?
            && (RuleMatches(FirewallRule(chain, action, s.value, d.value, sp.value, dp.value, protocol), t) <==>
                NamesAddress(src, t.src) && NamesAddress(dst, t.dst) && NamesPort(sport, t.sport) && NamesPort(dport, t.dport))
  {
    hide *;
    AddressFieldReads(src, t.src);
    AddressFieldReads(dst, t.dst);
    PortFieldReads(sport, t.sport);
    PortFieldReads(dport, t.dport);
    FieldsDecide(FirewallRule(chain, action, ParseAddressExpr(AddressFieldText(src)).value, ParseAddressExpr(AddressFieldText(dst)).value,
                              ParsePortExpr(PortFieldText(sport)).value, ParsePortExpr(PortFieldText(dport)).value, protocol), t);
  }

  // ---- verdicts ----

  /** A matching rule settles the verdict when it accepts, drops or rejects; behind one that logs, returns or jumps the search goes on. */
  lemma OwnRuleVerdict(t: Tuple, action: FirewallAction, rest: seq<FirewallRule>)
    ensures action in {Accept, Drop, Reject} ==> Verdict([OwnRule(t, action)] + rest, t) == Some(action)
    ensures action in {Log, Return, Jump, UnknownAction} ==> Verdict([OwnRule(t, action)] + rest, t) == Verdict(rest, t)
  {
    hide RuleMatches, OwnRule;
    OwnRuleMatches(t, action, t);
    OwnAction(t, action);
    assert ([OwnRule(t, action)] + rest)[1..] == rest;
  }

  lemma OwnAction(t: Tuple, action: FirewallAction)
    ensures OwnRule(t, action).action == action
  {}

  // ---- scopes ----

  /** Both are plain `any`, or they agree in sign and list. */
  predicate SameAddresses(a: AddressExpr, b: AddressExpr) {
    if a.any && !a.negated then b.any && !b.negated
    else !(b.any && !b.negated) && a.negated == b.negated && a.ranges == b.ranges && a.variables == b.variables
  }

  predicate SamePorts(a: PortExpr, b: PortExpr) {
    if a.any && !a.negated then b.any && !b.negated
    else !(b.any && !b.negated) && a.negated == b.negated && a.ranges == b.ranges
  }

  lemma AddressTextIff(a: AddressExpr, b: AddressExpr)
    requires Networked(a) && Networked(b) && Printable(a) && Printable(b)
    ensures AddressToString(a) == AddressToString(b) <==> SameAddresses(a, b)
  {
    hide Networked, Join, NetworkTexts;
    if AddressToString(a) == AddressToString(b) { SameAddressText(a, b); }
  }

  lemma PortTextIff(a: PortExpr, b: PortExpr)
    requires Ordered(a) && Ordered(b)
    ensures PortToString(a) == PortToString(b) <==> SamePorts(a, b)
  {
    hide Ordered, Join, RangeTexts;
    if PortToString(a) == PortToString(b) { SamePortText(a, b); }
  }

  /** Two rules have one scope exactly when chain, protocol and all four expressions agree, up to the `any` mark under a negation. */
  lemma SameScopeIff(a: ShapedRule, b: ShapedRule)
    ensures SameScope(a, b) <==>
            a.chain == b.chain && a.protocol == b.protocol && SameAddresses(a.source, b.source) && SameAddresses(a.destination, b.destination)
            && SamePorts(a.sourcePorts, b.sourcePorts) && SamePorts(a.destinationPorts, b.destinationPorts)
  {
    hide AddressToString, PortToString, SameAddresses, SamePorts, IsNetwork, Variable, Ordered;
    AddressTextIff(a.source, b.source);
    AddressTextIff(a.destination, b.destination);
    PortTextIff(a.sourcePorts, b.sourcePorts);
    PortTextIff(a.destinationPorts, b.destinationPorts);
  }

  // ---- broad denies ----

  /** Without a negated `any`, a broad deny is a rule that drops or rejects any protocol and whose four expressions print as `any`. */
  lemma BroadDenyIff(r: ShapedRule)
    requires NoNegatedAny(r)
    ensures BroadDeny(r) <==>
            r.action in {Drop, Reject} && r.protocol == AnyProto
            && AddressToString(r.source) == "any" && AddressToString(r.destination) == "any"
            && PortToString(r.sourcePorts) == "any" && PortToString(r.destinationPorts) == "any"
  {
    hide AddressToString, PortToString, IsNetwork, Variable, Ordered;
    AnyText();
    AddressTextIff(r.source, ANY_ADDRESS);
    AddressTextIff(r.destination, ANY_ADDRESS);
    AnyIsOrdered();
    PortTextIff(r.sourcePorts, ANY_PORT);
    PortTextIff(r.destinationPorts, ANY_PORT);
  }

  lemma AnyText()
    ensures AddressToString(ANY_ADDRESS) == "any" && PortToString(ANY_PORT) == "any"
  {}

  lemma AnyIsOrdered()
    ensures Ordered(ANY_PORT)
  {}

  /** Behind a rule that drops or rejects everything, every accept rule of that chain is warned about, wherever both stand. */
  lemma BroadDenyWarns(rules: seq<FirewallRule>, i: nat, j: nat)
    requires i < j < |rules| && rules[j].action == Accept && rules[i].action in {Drop, Reject} && rules[i].chain == rules[j].chain
    requires rules[i].source == ANY_ADDRESS && rules[i].destination == ANY_ADDRESS
    requires rules[i].sourcePorts == ANY_PORT && rules[i].destinationPorts == ANY_PORT && rules[i].protocol == AnyProto
    ensures Warned(rules, j)
  {
    assert BroadDeny(rules[i]);
  }
}
