/** Firewall rules: first-match verdicts, shadowed rules and ordering warnings. */
module Firewall {
  import opened Text
  import opened Ipv4
  import opened Exprs

  datatype FirewallAction = Accept | Drop | Reject | Log | Return | Jump | UnknownAction

  datatype Direction = Input | Output | Forward | Prerouting | Postrouting | UnknownChain

  /** The fields that the analyses read; interfaces, state and comment are not among them. */
  datatype FirewallRule = FirewallRule(
    chain: Direction, action: FirewallAction, source: AddressExpr, destination: AddressExpr,
    sourcePorts: PortExpr, destinationPorts: PortExpr, protocol: Protocol)

  datatype Tuple = Tuple(src: U32, dst: U32, sport: U16, dport: U16, protocol: Protocol, chain: Direction)

  predicate RuleMatches(r: FirewallRule, t: Tuple) {
    && (r.chain == UnknownChain || t.chain == UnknownChain || r.chain == t.chain)
    && (r.protocol == AnyProto || t.protocol == AnyProto || r.protocol == t.protocol)
    && AddressMatches(r.source, t.src) && AddressMatches(r.destination, t.dst)
    && PortMatches(r.sourcePorts, t.sport) && PortMatches(r.destinationPorts, t.dport)
  }

  /** What the expression parser produces. */
  predicate Shaped(r: FirewallRule) {
    Networked(r.source) && Networked(r.destination) && Ordered(r.sourcePorts) && Ordered(r.destinationPorts)
  }

  type ShapedRule = r: FirewallRule | Shaped(r)
    witness FirewallRule(UnknownChain, UnknownAction, ANY_ADDRESS, ANY_ADDRESS, ANY_PORT, ANY_PORT, AnyProto)

  /** `any` under a negation: it matches nothing, and prints like the empty list that matches everything. */
  predicate NegatedAnyAddress(e: AddressExpr) { e.any && e.negated }

  predicate NegatedAnyPort(e: PortExpr) { e.any && e.negated }

  predicate NoNegatedAny(r: FirewallRule) {
    && !NegatedAnyAddress(r.source) && !NegatedAnyAddress(r.destination)
    && !NegatedAnyPort(r.sourcePorts) && !NegatedAnyPort(r.destinationPorts)
  }

  predicate Deciding(a: FirewallAction) { a == Accept || a == Drop || a == Reject }

  predicate SameScope(a: ShapedRule, b: ShapedRule) {
    && a.chain == b.chain && a.protocol == b.protocol
    && AddressToString(a.source) == AddressToString(b.source)
    && AddressToString(a.destination) == AddressToString(b.destination)
    && PortToString(a.sourcePorts) == PortToString(b.sourcePorts)
    && PortToString(a.destinationPorts) == PortToString(b.destinationPorts)
  }

  // ---- verdicts ----

  predicate Decides(r: FirewallRule, t: Tuple) { Deciding(r.action) && RuleMatches(r, t) }

  /** Action of the first deciding rule that matches. */
  function Verdict(rules: seq<FirewallRule>, t: Tuple): Option<FirewallAction> {
    if rules == [] then None else if Decides(rules[0], t) then Some(rules[0].action) else Verdict(rules[1..], t)
  }

  /** Position of that rule. */
  predicate IsDecider(rules: seq<FirewallRule>, t: Tuple, d: nat) {
    d < |rules| && Decides(rules[d], t) && forall i :: 0 <= i < d ==> !Decides(rules[i], t)
  }

  lemma {:induction false} VerdictIsFirst(rules: seq<FirewallRule>, t: Tuple)
    ensures Verdict(rules, t).None? ==> forall i :: 0 <= i < |rules| ==> !Decides(rules[i], t)
    ensures Verdict(rules, t).Some? ==> exists d: nat :: IsDecider(rules, t, d) && Verdict(rules, t) == Some(rules[d].action)
  {
    hide Decides;
    if rules != [] {
      if Decides(rules[0], t) {
        assert IsDecider(rules, t, 0);
      } else {
        VerdictIsFirst(rules[1..], t);
        if Verdict(rules[1..], t).Some? {
          var d: nat :| IsDecider(rules[1..], t, d) && Verdict(rules[1..], t) == Some(rules[1..][d].action);
          forall i | 0 <= i < d + 1 ensures !Decides(rules[i], t) {
            if i > 0 { assert rules[i] == rules[1..][i - 1]; }
          }
          assert IsDecider(rules, t, d + 1);
        } else {
          forall i | 0 <= i < |rules| ensures !Decides(rules[i], t) {
            if i > 0 { assert rules[i] == rules[1..][i - 1]; }
          }
        }
      }
    }
  }

  // ---- shadowed rules ----

  predicate Shadows(rules: seq<ShapedRule>, i: nat, j: nat) {
    i < j < |rules| && Deciding(rules[i].action) && SameScope(rules[i], rules[j])
  }

  /** The reported pairs (later, earlier), by earlier and then later position. */
  ghost predicate ShadowReport(rules: seq<ShapedRule>, out: seq<(nat, nat)>) {
    && (forall i: nat, j: nat :: Shadows(rules, i, j) <==> (j, i) in out)
    && forall a, b :: 0 <= a < b < |out| ==> out[a].1 < out[b].1 || (out[a].1 == out[b].1 && out[a].0 < out[b].0)
  }

  method ShadowedRules(rules: seq<ShapedRule>) returns (out: seq<(nat, nat)>)
    ensures ShadowReport(rules, out)
    ensures forall i: nat, j: nat :: (j, i) in out <==>
              i < j < |rules| && (rules[i].action == Accept || rules[i].action == Drop || rules[i].action == Reject) && SameScope(rules[i], rules[j])
  {
    hide SameScope;
    out := [];
    for i := 0 to |rules|
      invariant forall a: nat, b: nat :: Shadows(rules, a, b) && a < i <==> (b, a) in out
      invariant forall a, b :: 0 <= a < b < |out| ==> out[a].1 < out[b].1 || (out[a].1 == out[b].1 && out[a].0 < out[b].0)
      invariant forall p :: p in out ==> p.1 < i
    {
      if !Deciding(rules[i].action) { continue; }
      for j := i + 1 to |rules|
        invariant forall a: nat, b: nat :: Shadows(rules, a, b) && (a < i || (a == i && b < j)) <==> (b, a) in out
        invariant forall a, b :: 0 <= a < b < |out| ==> out[a].1 < out[b].1 || (out[a].1 == out[b].1 && out[a].0 < out[b].0)
        invariant forall p :: p in out ==> p.1 < i || (p.1 == i && p.0 < j)
      {
        if SameScope(rules[i], rules[j]) {
          ghost var before := out;
          out := out + [(j, i)];
          assert forall k :: 0 <= k < |before| ==> before[k] in before;
        }
      }
    }
  }

  ghost predicate Flagged(rules: seq<ShapedRule>, j: nat) { exists i: nat :: Shadows(rules, i, j) }

  /** The rules from position `k` on that no report names as shadowed. */
  ghost function Unshadowed(rules: seq<ShapedRule>, k: nat): seq<ShapedRule>
    requires k <= |rules|
    decreases |rules| - k
  {
    if k == |rules| then [] else (if Flagged(rules, k) then [] else [rules[k]]) + Unshadowed(rules, k + 1)
  }

  /** Wherever the earlier rule says `!any`, so does the later one. */
  predicate Faithful(a: FirewallRule, b: FirewallRule) {
    && (NegatedAnyAddress(a.source) ==> NegatedAnyAddress(b.source))
    && (NegatedAnyAddress(a.destination) ==> NegatedAnyAddress(b.destination))
    && (NegatedAnyPort(a.sourcePorts) ==> NegatedAnyPort(b.sourcePorts))
    && (NegatedAnyPort(a.destinationPorts) ==> NegatedAnyPort(b.destinationPorts))
  }

  /** Same printed scope: what the later rule matches, the earlier one matches. */
  lemma SameScopeMatches(a: ShapedRule, b: ShapedRule, t: Tuple)
    requires SameScope(a, b) && Faithful(a, b) && RuleMatches(b, t)
    ensures RuleMatches(a, t)
  {
    hide AddressToString, PortToString, InNetworks, InPorts, IsNetwork, Variable, Ordered;
    SameAddressText(a.source, b.source);
    SameAddressText(a.destination, b.destination);
    SamePortText(a.sourcePorts, b.sourcePorts);
    SamePortText(a.destinationPorts, b.destinationPorts);
  }

  lemma NegatedAnyMatchesNothing(a: FirewallRule, t: Tuple)
    requires !NoNegatedAny(a)
    ensures !RuleMatches(a, t)
  {
    hide InNetworks, InPorts;
  }

  /** What the later rule matches, the earlier one matches. */
  ghost predicate ScopeCovers(a: FirewallRule, b: FirewallRule) { forall t :: RuleMatches(b, t) ==> RuleMatches(a, t) }

  ghost predicate MatchesNothing(r: FirewallRule) { forall t :: !RuleMatches(r, t) }

  /** For rules with one printed scope, the earlier covers the later exactly when the pair is faithful or the later matches nothing. */
  lemma ScopeCoversIff(a: ShapedRule, b: ShapedRule)
    requires SameScope(a, b)
    ensures ScopeCovers(a, b) <==> Faithful(a, b) || MatchesNothing(b)
  {
    hide SameScope, RuleMatches;
    forall t | RuleMatches(b, t) && Faithful(a, b) ensures RuleMatches(a, t) { SameScopeMatches(a, b, t); }
    if !Faithful(a, b) {
      forall t ensures !RuleMatches(a, t) { NegatedAnyMatchesNothing(a, t); }
    }
  }

  /** Addresses that no packet has: a negation that leaves none out, or an empty list without one. */
  ghost predicate NoAddress(e: AddressExpr) {
    if e.negated then e.any || forall ip: U32 :: InNetworks(e.ranges, ip) else !e.any && e.ranges == []
  }

  ghost predicate NoPort(e: PortExpr) {
    if e.negated then e.any || forall p: U16 :: InPorts(e.ranges, p) else !e.any && e.ranges == []
  }

  lemma NoAddressIff(e: AddressExpr)
    ensures NoAddress(e) <==> forall ip: U32 :: !AddressMatches(e, ip)
  {
    hide Contains;
    if !e.negated && !e.any && e.ranges != [] {
      NetworkContainsItself(e.ranges[0]);
      assert AddressMatches(e, e.ranges[0].network);
    }
    if !e.negated && e.any { assert AddressMatches(e, 0); }
    if e.negated && !NoAddress(e) {
      var ip: U32 :| !InNetworks(e.ranges, ip);
      assert AddressMatches(e, ip);
    }
  }

  lemma NetworkContainsItself(r: CidrRange)
    ensures Contains(r, r.network)
  {}

  lemma NoPortIff(e: PortExpr)
    requires Ordered(e)
    ensures NoPort(e) <==> forall p: U16 :: !PortMatches(e, p)
  {
    if !e.negated && !e.any && e.ranges != [] {
      assert e.ranges[0] in e.ranges;
      assert PortMatches(e, e.ranges[0].lo);
    }
    if !e.negated && e.any { assert PortMatches(e, 0); }
    if e.negated && !NoPort(e) {
      var p: U16 :| !InPorts(e.ranges, p);
      assert PortMatches(e, p);
    }
  }

  /** A rule matches nothing exactly when one of its four expressions lets nothing through. */
  lemma MatchesNothingIff(r: ShapedRule)
    ensures MatchesNothing(r) <==>
            NoAddress(r.source) || NoAddress(r.destination) || NoPort(r.sourcePorts) || NoPort(r.destinationPorts)
  {
    hide AddressMatches, PortMatches, NoAddress, NoPort, Networked;
    NoAddressIff(r.source);
    NoAddressIff(r.destination);
    NoPortIff(r.sourcePorts);
    NoPortIff(r.destinationPorts);
    if !NoAddress(r.source) && !NoAddress(r.destination) && !NoPort(r.sourcePorts) && !NoPort(r.destinationPorts) {
      var src: U32 :| AddressMatches(r.source, src);
      var dst: U32 :| AddressMatches(r.destination, dst);
      var sport: U16 :| PortMatches(r.sourcePorts, sport);
      var dport: U16 :| PortMatches(r.destinationPorts, dport);
      assert RuleMatches(r, Tuple(src, dst, sport, dport, r.protocol, r.chain));
    }
  }

  // ---- one rule behind another ----

  function Without(rules: seq<FirewallRule>, j: nat): seq<FirewallRule>
    requires j < |rules|
  {
    rules[..j] + rules[j + 1..]
  }

  predicate StandsBehind(rules: seq<FirewallRule>, a: FirewallRule, i: nat, b: FirewallRule, j: nat) {
    i < j < |rules| && rules[i] == a && rules[j] == b
  }

  /** Behind `a`, in whatever list, deleting `b` changes no verdict. */
  ghost predicate Removable(a: FirewallRule, b: FirewallRule) {
    forall rules, i: nat, j: nat, t :: StandsBehind(rules, a, i, b, j) ==> Verdict(Without(rules, j), t) == Verdict(rules, t)
  }

  /** Behind `a`, in whatever list, `b` decides no packet. */
  ghost predicate NeverDecidesBehind(a: FirewallRule, b: FirewallRule) {
    forall rules, i: nat, j: nat, t :: StandsBehind(rules, a, i, b, j) ==> !IsDecider(rules, t, j)
  }

  lemma DeciderOfTail(rules: seq<FirewallRule>, t: Tuple, j: nat)
    requires 0 < j < |rules| && !Decides(rules[0], t)
    ensures IsDecider(rules[1..], t, j - 1) ==> IsDecider(rules, t, j)
  {
    hide Decides;
    assert forall k :: 0 < k <= j ==> rules[k] == rules[1..][k - 1];
  }

  lemma {:induction false} RemoveNonDecider(rules: seq<FirewallRule>, j: nat, t: Tuple)
    requires j < |rules| && !IsDecider(rules, t, j)
    ensures Verdict(Without(rules, j), t) == Verdict(rules, t)
  {
    hide Decides;
    if j == 0 {
      assert Without(rules, 0) == rules[1..];
    } else {
      assert Without(rules, j)[0] == rules[0] && Without(rules, j)[1..] == Without(rules[1..], j - 1);
      if !Decides(rules[0], t) {
        DeciderOfTail(rules, t, j);
        RemoveNonDecider(rules[1..], j - 1, t);
      }
    }
  }

  /** For two deciding rules all three say the same: covering, never deciding behind, being removable. */
  lemma BehindIff(a: FirewallRule, b: FirewallRule)
    requires Deciding(a.action) && Deciding(b.action)
    ensures NeverDecidesBehind(a, b) <==> ScopeCovers(a, b)
    ensures Removable(a, b) <==> ScopeCovers(a, b)
  {
    hide RuleMatches, Deciding, Verdict, StandsBehind;
    if ScopeCovers(a, b) {
      forall rules, i: nat, j: nat, t | StandsBehind(rules, a, i, b, j) ensures !IsDecider(rules, t, j) {
        CoveredDoesNotDecide(rules, a, i, b, j, t);
      }
      assert NeverDecidesBehind(a, b);
      forall rules, i: nat, j: nat, t | StandsBehind(rules, a, i, b, j)
        ensures j < |rules| && Verdict(Without(rules, j), t) == Verdict(rules, t)
      {
        CoveredDoesNotDecide(rules, a, i, b, j, t);
        RemoveNonDecider(rules, j, t);
      }
    } else {
      var t := UncoveredPacket(a, b);
      assert StandsBehind([a, b], a, 0, b, 1) by { ItStandsBehind(a, b); }
      assert IsDecider([a, b], t, 1);
      assert Without([a, b], 1) == [a];
      PairVerdicts(a, b, t);
      assert Verdict(Without([a, b], 1), t) != Verdict([a, b], t);
    }
  }

  lemma ItStandsBehind(a: FirewallRule, b: FirewallRule)
    ensures StandsBehind([a, b], a, 0, b, 1)
  {}

  lemma CoveredDoesNotDecide(rules: seq<FirewallRule>, a: FirewallRule, i: nat, b: FirewallRule, j: nat, t: Tuple)
    requires Deciding(a.action) && ScopeCovers(a, b) && StandsBehind(rules, a, i, b, j)
    ensures j < |rules| && !IsDecider(rules, t, j)
  {
    hide RuleMatches, Deciding;
    if Decides(b, t) { assert Decides(rules[i], t); }
  }

  lemma PairVerdicts(a: FirewallRule, b: FirewallRule, t: Tuple)
    ensures Verdict([a], t) == if Decides(a, t) then Some(a.action) else None
    ensures Verdict([a, b], t) == if Decides(a, t) then Some(a.action) else if Decides(b, t) then Some(b.action) else None
  {
    hide Decides;
    assert [a][1..] == [] && [a, b][1..] == [b] && [b][1..] == [];
  }

  /** One line of the report is right, in every list, exactly when the pair is faithful or the later rule cannot matter. */
  lemma ReportedPairIff(a: ShapedRule, b: ShapedRule)
    requires Deciding(a.action) && SameScope(a, b)
    ensures Removable(a, b) <==> !Deciding(b.action) || Faithful(a, b) || MatchesNothing(b)
    ensures Deciding(b.action) ==> ((forall t :: Verdict([a], t) == Verdict([a, b], t)) <==> Faithful(a, b) || MatchesNothing(b))
  {
    hide SameScope, RuleMatches, Faithful, Verdict, Deciding, ScopeCovers, MatchesNothing;
    if Deciding(b.action) {
      BehindIff(a, b);
      ScopeCoversIff(a, b);
      PairVerdictsIff(a, b);
    } else {
      forall rules, i: nat, j: nat, t | StandsBehind(rules, a, i, b, j) ensures Verdict(Without(rules, j), t) == Verdict(rules, t) {
        RemoveNonDecider(rules, j, t);
      }
    }
  }

  lemma PairVerdictsIff(a: FirewallRule, b: FirewallRule)
    requires Deciding(a.action) && Deciding(b.action)
    ensures (forall t :: Verdict([a], t) == Verdict([a, b], t)) <==> ScopeCovers(a, b)
  {
    hide RuleMatches, Deciding, Verdict;
    if ScopeCovers(a, b) {
      forall t ensures Verdict([a], t) == Verdict([a, b], t) { PairVerdicts(a, b, t); }
    } else {
      var t := UncoveredPacket(a, b);
      PairVerdicts(a, b, t);
    }
  }

  // ---- deleting every reported rule ----

  /** Some report of this rule is faithful, or the rule cannot matter. */
  ghost predicate SoundlyFlagged(rules: seq<ShapedRule>, j: nat)
    requires j < |rules|
  {
    || !Deciding(rules[j].action) || MatchesNothing(rules[j])
    || exists i: nat :: Shadows(rules, i, j) && Faithful(rules[i], rules[j])
  }

  ghost predicate SoundReport(rules: seq<ShapedRule>) {
    forall j: nat :: j < |rules| && Flagged(rules, j) ==> SoundlyFlagged(rules, j)
  }

  /** The rule that decides a packet is not reported as shadowed. */
  lemma DeciderIsUnshadowed(rules: seq<ShapedRule>, t: Tuple, d: nat)
    requires d < |rules| && (Flagged(rules, d) ==> SoundlyFlagged(rules, d))
    requires IsDecider(rules, t, d)
    ensures !Flagged(rules, d)
  {
    hide SameScope, RuleMatches, Faithful, Deciding;
    if Flagged(rules, d) {
      var i: nat :| Shadows(rules, i, d) && Faithful(rules[i], rules[d]);
      assert !Decides(rules[i], t);
      SameScopeMatches(rules[i], rules[d], t);
    }
  }

  lemma {:induction false} VerdictSurvives(rules: seq<ShapedRule>, t: Tuple, k: nat)
    requires SoundReport(rules)
    requires k <= |rules| && forall i :: 0 <= i < k ==> !Decides(rules[i], t)
    ensures Verdict(Unshadowed(rules, k), t) == Verdict(rules[k..], t)
    decreases |rules| - k
  {
    hide Decides, Flagged, SoundlyFlagged, Verdict, Unshadowed;
    if k < |rules| {
      UnshadowedStep(rules, k);
      assert rules[k..] == [rules[k]] + rules[k + 1..];
      VerdictCons(rules[k], rules[k + 1..], t);
      VerdictCons(rules[k], Unshadowed(rules, k + 1), t);
      if Decides(rules[k], t) {
        DeciderIsUnshadowed(rules, t, k);
      } else {
        VerdictSurvives(rules, t, k + 1);
      }
    } else {
      assert rules[k..] == [];
      NothingUnshadowed(rules);
    }
  }

  lemma VerdictCons(first: FirewallRule, rest: seq<FirewallRule>, t: Tuple)
    ensures Verdict([first] + rest, t) == if Decides(first, t) then Some(first.action) else Verdict(rest, t)
  {
    hide Decides;
    assert ([first] + rest)[1..] == rest;
  }

  lemma NothingUnshadowed(rules: seq<ShapedRule>)
    ensures Unshadowed(rules, |rules|) == []
  {}

  /** Deleting every reported rule changes no verdict. */
  lemma ShadowEliminationKeepsVerdict(rules: seq<ShapedRule>, t: Tuple)
    requires SoundReport(rules)
    ensures Verdict(Unshadowed(rules, 0), t) == Verdict(rules, t)
  {
    hide Decides, Flagged, SoundReport, Unshadowed, Verdict;
    VerdictSurvives(rules, t, 0);
    assert rules[0..] == rules;
  }

  /** In particular for every list without a negated `any`. */
  lemma PlainRulesKeepVerdict(rules: seq<ShapedRule>, t: Tuple)
    requires forall r :: r in rules ==> NoNegatedAny(r)
    ensures Verdict(Unshadowed(rules, 0), t) == Verdict(rules, t)
  {
    hide SameScope, Unshadowed, Verdict, Deciding;
    forall j: nat | j < |rules| && Flagged(rules, j) ensures SoundlyFlagged(rules, j) {
      var i: nat :| Shadows(rules, i, j);
      assert NoNegatedAny(rules[i]);
      assert Faithful(rules[i], rules[j]);
    }
    ShadowEliminationKeepsVerdict(rules, t);
  }

  /**
   * For deciding rules that all print the first one's scope the elimination
   * leaves the first one, and is right exactly when that is faithful to every
   * later rule that matches something.
   */
  lemma OneScopeEliminationIff(rules: seq<ShapedRule>)
    requires rules != [] && forall r :: r in rules ==> Deciding(r.action) && SameScope(rules[0], r)
    ensures Unshadowed(rules, 0) == [rules[0]]
    ensures (forall t :: Verdict(Unshadowed(rules, 0), t) == Verdict(rules, t))
            <==> forall j :: 0 < j < |rules| ==> Faithful(rules[0], rules[j]) || MatchesNothing(rules[j])
  {
    hide SameScope, RuleMatches, Faithful, Verdict, Deciding, Unshadowed, MatchesNothing, ScopeCovers;
    assert rules[0] in rules;
    OnlyFirstLeft(rules, 1);
    FirstIsUnflagged(rules);
    assert Unshadowed(rules, 0) == [rules[0]] by { UnshadowedStep(rules, 0); }
    forall j | 0 < j < |rules| ensures ScopeCovers(rules[0], rules[j]) <==> Faithful(rules[0], rules[j]) || MatchesNothing(rules[j]) {
      assert rules[j] in rules;
      ScopeCoversIff(rules[0], rules[j]);
    }
    if forall j :: 0 < j < |rules| ==> ScopeCovers(rules[0], rules[j]) {
      forall t ensures Verdict([rules[0]], t) == Verdict(rules, t) { FirstCoversAll(rules, t); }
    } else {
      var j :| 0 < j < |rules| && !ScopeCovers(rules[0], rules[j]);
      var t := UncoveredPacket(rules[0], rules[j]);
      assert rules[j] in rules;
      VerdictIsFirst(rules, t);
      VerdictIsFirst([rules[0]], t);
      assert Verdict([rules[0]], t) != Verdict(rules, t) by { SomeDecides(rules, t, j); }
    }
  }

  lemma UncoveredPacket(a: FirewallRule, b: FirewallRule) returns (t: Tuple)
    requires !ScopeCovers(a, b)
    ensures RuleMatches(b, t) && !RuleMatches(a, t)
  {
    t :| RuleMatches(b, t) && !RuleMatches(a, t);
  }

  lemma SomeDecides(rules: seq<FirewallRule>, t: Tuple, j: nat)
    requires j < |rules| && Deciding(rules[j].action) && RuleMatches(rules[j], t) && !RuleMatches(rules[0], t)
    ensures Verdict([rules[0]], t).None? && Verdict(rules, t).Some?
  {
    hide RuleMatches, Deciding;
    VerdictIsFirst(rules, t);
    VerdictIsFirst([rules[0]], t);
    assert Decides(rules[j], t);
  }

  lemma FirstCoversAll(rules: seq<FirewallRule>, t: Tuple)
    requires rules != [] && Deciding(rules[0].action) && forall j :: 0 < j < |rules| ==> ScopeCovers(rules[0], rules[j])
    ensures Verdict([rules[0]], t) == Verdict(rules, t)
  {
    hide RuleMatches, Deciding;
    assert [rules[0]][1..] == [];
    if !Decides(rules[0], t) {
      VerdictIsFirst(rules, t);
      forall j | 0 <= j < |rules| ensures !Decides(rules[j], t) {}
    }
  }

  lemma FirstIsUnflagged(rules: seq<ShapedRule>)
    ensures !Flagged(rules, 0)
  {}

  lemma UnshadowedStep(rules: seq<ShapedRule>, k: nat)
    requires k < |rules|
    ensures Unshadowed(rules, k) == if Flagged(rules, k) then Unshadowed(rules, k + 1) else [rules[k]] + Unshadowed(rules, k + 1)
  {
    hide Flagged;
  }

  lemma {:induction false} OnlyFirstLeft(rules: seq<ShapedRule>, k: nat)
    requires 0 < k <= |rules| && forall r :: r in rules ==> Deciding(r.action) && SameScope(rules[0], r)
    ensures Unshadowed(rules, k) == []
    decreases |rules| - k
  {
    hide SameScope, Deciding;
    if k < |rules| {
      assert rules[0] in rules && rules[k] in rules;
      assert Shadows(rules, 0, k);
      OnlyFirstLeft(rules, k + 1);
    }
  }

  lemma EmptyBracketsRead()
    ensures ParseAddressExpr("![]") == Parsed(AddressExpr(false, true, [], []))
  {
    hide Trim;
    TrimTight("![]");
    TrimTight("[]");
    assert "![]"[1..] == "[]" && "[]"[1..1] == "";
    assert Fields("", ',') == [""] && NonEmpty([""]) == [] by { assert [""][1..] == []; }
  }

  /** With the readable `!any` before the readable `![]`, not a faithful pair, the report names the only rule that decides. */
  lemma NegatedAnyBreaksElimination(t: Tuple)
    ensures ParseAddressExpr("!any").Parsed? && ParseAddressExpr("![]").Parsed?
    ensures var nothing := FirewallRule(Input, Accept, ParseAddressExpr("!any").value, ANY_ADDRESS, ANY_PORT, ANY_PORT, AnyProto);
            var everything := FirewallRule(Input, Drop, ParseAddressExpr("![]").value, ANY_ADDRESS, ANY_PORT, ANY_PORT, AnyProto);
            && Shaped(nothing) && Shaped(everything) && Flagged([nothing, everything], 1)
            && (RuleMatches(everything, t) ==> Verdict([nothing, everything], t) == Some(Drop) && Verdict([nothing], t) == None)
            && (t.chain == Input ==> RuleMatches(everything, t))
  {
    NegatedAnyReads();
    EmptyBracketsRead();
    hide ParseAddressExpr;
    var nothing := FirewallRule(Input, Accept, AddressExpr(true, true, [], []), ANY_ADDRESS, ANY_PORT, ANY_PORT, AnyProto);
    var everything := FirewallRule(Input, Drop, AddressExpr(false, true, [], []), ANY_ADDRESS, ANY_PORT, ANY_PORT, AnyProto);
    var rules: seq<ShapedRule> := [nothing, everything];
    NothingToJoin();
    assert NetworkTexts([]) + [] == [];
    assert Shadows(rules, 0, 1);
    assert rules[1..] == [everything] && [nothing][1..] == [];
  }

  lemma NegatedAnyReads()
    ensures ParseAddressExpr("!any") == Parsed(AddressExpr(true, true, [], []))
  {
    hide Trim;
    TrimTight("!any");
    TrimTight("any");
    assert "!any"[1..] == "any";
  }

  // ---- ordering warnings ----

  predicate Broad(r: FirewallRule) {
    r.source.any && r.destination.any && r.sourcePorts.any && r.destinationPorts.any && r.protocol == AnyProto
  }

  predicate BroadDeny(r: FirewallRule) { Broad(r) && (r.action == Drop || r.action == Reject) }

  predicate Warned(rules: seq<FirewallRule>, j: nat) {
    j < |rules| && rules[j].action == Accept && exists i :: 0 <= i < j && rules[i].chain == rules[j].chain && BroadDeny(rules[i])
  }

  method OrderingWarnings(rules: seq<FirewallRule>) returns (out: seq<nat>)
    ensures forall j: nat :: j in out <==> Warned(rules, j)
    ensures forall j: nat :: j in out <==>
              j < |rules| && rules[j].action == Accept
              && exists i :: 0 <= i < j && rules[i].chain == rules[j].chain && (rules[i].action == Drop || rules[i].action == Reject)
                             && rules[i].source.any && rules[i].destination.any && rules[i].sourcePorts.any && rules[i].destinationPorts.any
                             && rules[i].protocol == AnyProto
    ensures forall a, b :: 0 <= a < b < |out| ==> out[a] < out[b]
  {
    out := [];
    var broadDropSeen: map<Direction, bool> := map[];
    for j := 0 to |rules|
      invariant forall c :: (c in broadDropSeen && broadDropSeen[c]) <==> exists i :: 0 <= i < j && rules[i].chain == c && BroadDeny(rules[i])
      invariant forall w: nat :: w in out <==> w < j && Warned(rules, w)
      invariant forall a, b :: 0 <= a < b < |out| ==> out[a] < out[b]
    {
      var r := rules[j];
      ghost var before := broadDropSeen;
      if r.chain !in broadDropSeen { broadDropSeen := broadDropSeen[r.chain := false]; }
      if broadDropSeen[r.chain] && r.action == Accept {
        assert forall k :: 0 <= k < |out| ==> out[k] in out;
        out := out + [j];
      }
      if Broad(r) && (r.action == Drop || r.action == Reject) { broadDropSeen := broadDropSeen[r.chain := true]; }
      forall c ensures (c in broadDropSeen && broadDropSeen[c]) <==> exists i :: 0 <= i < j + 1 && rules[i].chain == c && BroadDeny(rules[i]) {
        if c in before && before[c] { var i :| 0 <= i < j && rules[i].chain == c && BroadDeny(rules[i]); }
        if c == r.chain && BroadDeny(r) { assert rules[j].chain == c; }
      }
    }
  }

  /** The warned rule stands behind a broad deny that says no `!any`. */
  predicate SoundlyWarned(rules: seq<FirewallRule>, j: nat) {
    && j < |rules| && rules[j].action == Accept
    && exists i :: 0 <= i < j && rules[i].chain == rules[j].chain && BroadDeny(rules[i]) && NoNegatedAny(rules[i])
  }

  /** Such a rule is warned about and never decides a packet: the broad deny before it already has. */
  lemma WarnedNeverDecides(rules: seq<FirewallRule>, t: Tuple, j: nat)
    requires SoundlyWarned(rules, j)
    ensures Warned(rules, j) && !IsDecider(rules, t, j)
  {
    hide InNetworks, InPorts;
    var i :| 0 <= i < j && rules[i].chain == rules[j].chain && BroadDeny(rules[i]) && NoNegatedAny(rules[i]);
    if Decides(rules[j], t) { assert Decides(rules[i], t); }
  }

  /** A rule that tests as broad covers its whole chain exactly when it says no `!any`; otherwise it matches nothing. */
  lemma BroadCoversIff(r: FirewallRule)
    requires Broad(r)
    ensures (forall b: FirewallRule, t: Tuple :: b.chain == r.chain && RuleMatches(b, t) ==> RuleMatches(r, t)) <==> NoNegatedAny(r)
    ensures !NoNegatedAny(r) ==> MatchesNothing(r)
  {
    hide InNetworks, InPorts;
    if !NoNegatedAny(r) {
      var b := FirewallRule(r.chain, r.action, ANY_ADDRESS, ANY_ADDRESS, ANY_PORT, ANY_PORT, AnyProto);
      var t := Tuple(0, 0, 0, 0, AnyProto, r.chain);
      assert b.chain == r.chain && RuleMatches(b, t) && !RuleMatches(r, t);
    }
  }

  /** One warning is right, in every list, exactly when the broad deny says no `!any` or the accept rule matches nothing. */
  lemma WarningIff(deny: FirewallRule, accept: FirewallRule)
    requires BroadDeny(deny) && accept.action == Accept && accept.chain == deny.chain
    ensures NeverDecidesBehind(deny, accept) <==> NoNegatedAny(deny) || MatchesNothing(accept)
  {
    hide RuleMatches, Broad, NeverDecidesBehind, NoNegatedAny;
    BehindIff(deny, accept);
    BroadCoversIff(deny);
  }

  /** `-s !any` reads as a negated `any`; such a drop rule counts as a broad deny, and the accept rule behind it decides. */
  lemma NegatedAnyBreaksWarning(t: Tuple)
    ensures ParseAddressExpr("!any") == Parsed(AddressExpr(true, true, [], []))
    ensures var rules := [FirewallRule(Input, Drop, ParseAddressExpr("!any").value, ANY_ADDRESS, ANY_PORT, ANY_PORT, AnyProto),
                          FirewallRule(Input, Accept, ANY_ADDRESS, ANY_ADDRESS, ANY_PORT, ANY_PORT, AnyProto)];
            Warned(rules, 1) && (t.chain == Input ==> IsDecider(rules, t, 1))
  {
    NegatedAnyReads();
    hide ParseAddressExpr;
    var rules := [FirewallRule(Input, Drop, ParseAddressExpr("!any").value, ANY_ADDRESS, ANY_PORT, ANY_PORT, AnyProto),
                  FirewallRule(Input, Accept, ANY_ADDRESS, ANY_ADDRESS, ANY_PORT, ANY_PORT, AnyProto)];
    assert BroadDeny(rules[0]) && rules[0].chain == rules[1].chain;
  }
}
