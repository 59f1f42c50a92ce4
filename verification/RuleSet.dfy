/** A mutable rule list with secondary indexes by sid and by class type. */
module RuleSet {
  import opened Collections
  import opened Text
  import opened Ipv4
  import opened Signature

  function SidIndex(rules: seq<SignatureRule>): map<U32, seq<nat>> {
    if rules == [] then map[] else
      var m, last := SidIndex(rules[..|rules| - 1]), rules[|rules| - 1];
      if last.sid != 0 then Push(m, last.sid, |rules| - 1) else m
  }

  function ClassIndex(rules: seq<SignatureRule>): map<string, seq<nat>> {
    if rules == [] then map[] else
      var m, last := ClassIndex(rules[..|rules| - 1]), rules[|rules| - 1];
      if last.classtype != "" then Push(m, ToLower(last.classtype), |rules| - 1) else m
  }

  /** Positions of the rules with a sid, ascending. */
  function SidPositions(rules: seq<SignatureRule>, sid: U32): (ps: seq<nat>)
    ensures forall p :: p in ps <==> 0 <= p < |rules| && rules[p].sid == sid
    ensures forall i, j :: 0 <= i < j < |ps| ==> ps[i] < ps[j]
  {
    if rules == [] then [] else
      var front := SidPositions(rules[..|rules| - 1], sid);
      assert forall i :: 0 <= i < |front| ==> front[i] in front;
      front + (if rules[|rules| - 1].sid == sid then [|rules| - 1] else [])
  }

  function ClassPositions(rules: seq<SignatureRule>, name: string): (ps: seq<nat>)
    ensures forall p :: p in ps <==> 0 <= p < |rules| && rules[p].classtype != "" && ToLower(rules[p].classtype) == name
    ensures forall i, j :: 0 <= i < j < |ps| ==> ps[i] < ps[j]
  {
    if rules == [] then [] else
      var front := ClassPositions(rules[..|rules| - 1], name);
      var last := rules[|rules| - 1];
      assert forall i :: 0 <= i < |front| ==> front[i] in front;
      front + (if last.classtype != "" && ToLower(last.classtype) == name then [|rules| - 1] else [])
  }

  /** The sid index lists exactly the positions of each non-zero sid, ascending. */
  lemma {:induction false} SidIndexIsExact(rules: seq<SignatureRule>, sid: U32)
    ensures sid in SidIndex(rules) <==> sid != 0 && SidPositions(rules, sid) != []
    ensures sid in SidIndex(rules) ==> SidIndex(rules)[sid] == SidPositions(rules, sid)
  {
    if rules != [] { SidIndexIsExact(rules[..|rules| - 1], sid); }
  }

  lemma {:induction false} ClassIndexIsExact(rules: seq<SignatureRule>, name: string)
    ensures name in ClassIndex(rules) <==> ClassPositions(rules, name) != []
    ensures name in ClassIndex(rules) ==> ClassIndex(rules)[name] == ClassPositions(rules, name)
  {
    hide ToLower, ClassPositions, ClassIndex;
    if rules == [] {
      NoClasses(name);
    } else {
      ClassIndexIsExact(rules[..|rules| - 1], name);
      ClassStep(rules, name);
    }
  }

  lemma NoClasses(name: string)
    ensures ClassIndex([]) == map[] && ClassPositions([], name) == []
  {}

  lemma ClassStep(rules: seq<SignatureRule>, name: string)
    requires rules != []
    ensures var init, last := rules[..|rules| - 1], rules[|rules| - 1];
            && ClassIndex(rules) == (if last.classtype != "" then Push(ClassIndex(init), ToLower(last.classtype), |rules| - 1) else ClassIndex(init))
            && ClassPositions(rules, name) ==
               ClassPositions(init, name) + (if last.classtype != "" && ToLower(last.classtype) == name then [|rules| - 1] else [])
  {
    hide ToLower;
  }

  function WithoutSid(rules: seq<SignatureRule>, sid: U32): seq<SignatureRule> {
    if rules == [] then [] else
      WithoutSid(rules[..|rules| - 1], sid) + (if rules[|rules| - 1].sid == sid then [] else [rules[|rules| - 1]])
  }

  function WithSid(rules: seq<SignatureRule>, sid: U32): seq<SignatureRule> {
    if rules == [] then [] else
      WithSid(rules[..|rules| - 1], sid) + (if rules[|rules| - 1].sid == sid then [rules[|rules| - 1]] else [])
  }

  lemma WithSidSnoc(rules: seq<SignatureRule>, last: SignatureRule, sid: U32)
    ensures WithSid(rules + [last], sid) == WithSid(rules, sid) + (if last.sid == sid then [last] else [])
  {
    assert (rules + [last])[..|rules|] == rules;
  }

  /** Erasing loses the rules of that sid only, and keeps those of every other sid in order. */
  lemma {:induction false} ErasureIsFilter(rules: seq<SignatureRule>, sid: U32, other: U32)
    ensures WithSid(WithoutSid(rules, sid), other) == if other == sid then [] else WithSid(rules, other)
  {
    hide WithSid;
    if rules == [] {
      NoneWithSid(other);
    } else {
      var init, last := rules[..|rules| - 1], rules[|rules| - 1];
      ErasureIsFilter(init, sid, other);
      assert rules == init + [last];
      WithSidSnoc(init, last, other);
      if last.sid != sid {
        WithSidSnoc(WithoutSid(init, sid), last, other);
      } else {
        assert WithoutSid(rules, sid) == WithoutSid(init, sid);
      }
    }
  }

  lemma NoneWithSid(sid: U32)
    ensures WithSid([], sid) == []
  {}

  lemma {:induction false} ErasureCounts(rules: seq<SignatureRule>, sid: U32)
    ensures |WithoutSid(rules, sid)| == |rules| - |SidPositions(rules, sid)|
  {
    if rules != [] { ErasureCounts(rules[..|rules| - 1], sid); }
  }

  lemma {:induction false} ErasureOfNothing(rules: seq<SignatureRule>, sid: U32)
    requires |WithoutSid(rules, sid)| >= |rules|
    ensures WithoutSid(rules, sid) == rules
  {
    hide WithoutSid;
    if rules == [] {
      NothingToErase(sid);
    } else {
      var init := rules[..|rules| - 1];
      WithoutSidStep(rules, sid);
      ErasureShrinks(init, sid);
      ErasureOfNothing(init, sid);
      assert rules == init + [rules[|rules| - 1]];
    }
  }

  lemma NothingToErase(sid: U32)
    ensures WithoutSid([], sid) == []
  {}

  lemma {:induction false} ErasureShrinks(rules: seq<SignatureRule>, sid: U32)
    ensures |WithoutSid(rules, sid)| <= |rules|
  {
    hide WithoutSid;
    if rules == [] {
      NothingToErase(sid);
    } else {
      WithoutSidStep(rules, sid);
      ErasureShrinks(rules[..|rules| - 1], sid);
    }
  }

  lemma WithoutSidStep(rules: seq<SignatureRule>, sid: U32)
    requires rules != []
    ensures var init, last := rules[..|rules| - 1], rules[|rules| - 1];
            WithoutSid(rules, sid) == if last.sid == sid then WithoutSid(init, sid) else WithoutSid(init, sid) + [last]
  {}

  function RulesAt(rules: seq<SignatureRule>, positions: seq<nat>): (r: seq<SignatureRule>)
    requires forall i :: 0 <= i < |positions| ==> positions[i] < |rules|
    ensures |r| == |positions| && forall i :: 0 <= i < |r| ==> r[i] == rules[positions[i]]
  {
    seq(|positions|, i requires 0 <= i < |positions| => rules[positions[i]])
  }

  /** A lower revision, or the same one no later in the list. */
  predicate NotNewer(rules: seq<SignatureRule>, j: nat, k: nat)
    requires j < |rules| && k < |rules|
  {
    rules[j].rev < rules[k].rev || (rules[j].rev == rules[k].rev && j <= k)
  }

  /** The rule with this sid that no other one beats: highest revision, last position among equals. */
  predicate IsLatest(rules: seq<SignatureRule>, sid: U32, k: nat) {
    && k < |rules| && rules[k].sid == sid
    && forall j :: 0 <= j < |rules| && rules[j].sid == sid ==> NotNewer(rules, j, k)
  }

  /** Best of a list of positions. */
  ghost predicate BestOf(rules: seq<SignatureRule>, ps: seq<nat>, best: nat) {
    best < |rules| && best in ps && forall i :: 0 <= i < |ps| ==> ps[i] < |rules| && NotNewer(rules, ps[i], best)
  }

  lemma BestSnoc(rules: seq<SignatureRule>, ps: seq<nat>, best: nat, p: nat)
    requires p < |rules| && (ps == [] || BestOf(rules, ps, best))
    requires forall i :: 0 <= i < |ps| ==> ps[i] < p
    ensures BestOf(rules, ps + [p], if ps == [] || rules[p].rev >= rules[best].rev then p else best)
  {}

  lemma BestIsLatest(rules: seq<SignatureRule>, sid: U32, best: nat)
    requires BestOf(rules, SidPositions(rules, sid), best)
    ensures IsLatest(rules, sid, best)
  {
    hide SidPositions;
    var ps := SidPositions(rules, sid);
    forall j | 0 <= j < |rules| && rules[j].sid == sid ensures NotNewer(rules, j, best) {
      assert j in ps;
      var i :| 0 <= i < |ps| && ps[i] == j;
    }
  }

  lemma LatestSpelled(rules: seq<SignatureRule>, sid: U32, k: nat)
    requires IsLatest(rules, sid, k)
    ensures k < |rules| && rules[k].sid == sid
    ensures forall j :: 0 <= j < |rules| && rules[j].sid == sid ==> rules[j].rev <= rules[k].rev && (rules[j].rev == rules[k].rev ==> j <= k)
  {}

  function ReadableRules(lines: seq<string>): seq<SignatureRule> {
    if lines == [] then [] else
      var last := ParseRuleLine(lines[|lines| - 1]);
      ReadableRules(lines[..|lines| - 1]) + (if last.Parsed? then [last.value] else [])
  }

  /** Rule lines are read one after the other, unreadable ones leave nothing. */
  lemma {:induction false} RulesInOrder(a: seq<string>, b: seq<string>)
    ensures ReadableRules(a + b) == ReadableRules(a) + ReadableRules(b)
    decreases |b|
  {
    hide ParseRuleLine;
    if b == [] {
      assert a + b == a;
    } else {
      RulesInOrder(a, b[..|b| - 1]);
      assert (a + b)[..|a + b| - 1] == a + b[..|b| - 1];
    }
  }

  lemma OneRuleLine(line: string)
    ensures ReadableRules([line]) == if ParseRuleLine(line).Parsed? then [ParseRuleLine(line).value] else []
  {
    hide ParseRuleLine;
    assert [line][..0] == [];
  }

  class RuleSetManager {
    var rules: seq<SignatureRule>
    var sidIndex: map<U32, seq<nat>>
    var classIndex: map<string, seq<nat>>
    var generation: nat

    ghost predicate Valid()
      reads this
    {
      sidIndex == SidIndex(rules) && classIndex == ClassIndex(rules)
    }

    constructor ()
      ensures Valid() && rules == [] && generation == 0
    {
      rules, sidIndex, classIndex, generation := [], map[], map[], 0;
    }

    method RebuildIndexes()
      modifies this`sidIndex, this`classIndex
      ensures Valid()
    {
      hide ToLower;
      sidIndex, classIndex := map[], map[];
      for i := 0 to |rules|
        invariant sidIndex == SidIndex(rules[..i]) && classIndex == ClassIndex(rules[..i])
      {
        assert rules[..i + 1][..i] == rules[..i];
        var rule := rules[i];
        if rule.sid != 0 { sidIndex := Push(sidIndex, rule.sid, i); }
        if rule.classtype != "" { classIndex := Push(classIndex, ToLower(rule.classtype), i); }
      }
      assert rules[..|rules|] == rules;
    }

    method Touch()
      modifies this`sidIndex, this`classIndex, this`generation
      ensures Valid() && generation == old(generation) + 1
    {
      generation := generation + 1;
      RebuildIndexes();
    }

    method AddRule(rule: SignatureRule) returns (ok: bool)
      modifies this
      ensures Valid() && ok && rules == old(rules) + [rule] && generation == old(generation) + 1
    {
      rules := rules + [rule];
      Touch();
      return true;
    }

    method AddRuleText(line: string) returns (ok: bool)
      requires Valid()
      modifies this
      ensures Valid() && (ok <==> ParseRuleLine(line).Parsed?)
      ensures ok ==> rules == old(rules) + [ParseRuleLine(line).value] && generation == old(generation) + 1
      ensures !ok ==> rules == old(rules) && generation == old(generation)
    {
      hide ParseRuleLine, SidIndex, ClassIndex;
      var parsed := ParseRuleLine(line);
      if !parsed.Parsed? { return false; }
      ok := AddRule(parsed.value);
    }

    /** Reads a whole file; one generation step for all its rules, none when it has none. */
    method AddRuleFileText(text: string) returns (added: nat)
      requires Valid()
      modifies this
      ensures Valid() && rules == old(rules) + ReadableRules(Fields(text, '\n'))
      ensures added == |ReadableRules(Fields(text, '\n'))|
      ensures generation == old(generation) + (if added > 0 then 1 else 0)
    {
      hide ParseRuleLine, Fields, SidIndex, ClassIndex;
      var lines := Fields(text, '\n');
      var before := |rules|;
      var readable: seq<SignatureRule> := [];
      for n := 0 to |lines|
        invariant readable == ReadableRules(lines[..n])
      {
        assert lines[..n + 1][..n] == lines[..n];
        var parsed := ParseRuleLine(lines[n]);
        if parsed.Parsed? { readable := readable + [parsed.value]; }
      }
      assert lines[..|lines|] == lines;
      rules := rules + readable;
      if |rules| != before { Touch(); } else { assert rules == old(rules); }
      return |rules| - before;
    }

    method ReplaceRule(index: nat, rule: SignatureRule) returns (ok: bool)
      requires Valid()
      modifies this
      ensures Valid() && (ok <==> index < |old(rules)|)
      ensures ok ==> rules == old(rules)[index := rule] && generation == old(generation) + 1
      ensures !ok ==> rules == old(rules) && generation == old(generation)
    {
      hide SidIndex, ClassIndex;
      if index >= |rules| { return false; }
      rules := rules[index := rule];
      Touch();
      return true;
    }

    method EraseIndex(index: nat) returns (ok: bool)
      requires Valid()
      modifies this
      ensures Valid() && (ok <==> index < |old(rules)|)
      ensures ok ==> rules == old(rules)[..index] + old(rules)[index + 1..] && generation == old(generation) + 1
      ensures !ok ==> rules == old(rules) && generation == old(generation)
    {
      hide SidIndex, ClassIndex;
      if index >= |rules| { return false; }
      rules := rules[..index] + rules[index + 1..];
      Touch();
      return true;
    }

    method EraseSid(sid: U32) returns (removed: nat)
      requires Valid()
      modifies this
      ensures Valid() && rules == WithoutSid(old(rules), sid)
      ensures removed == |SidPositions(old(rules), sid)|
      ensures generation == old(generation) + (if rules != old(rules) then 1 else 0)
    {
      hide SidIndex, ClassIndex, SidPositions;
      ErasureCounts(rules, sid);
      if |WithoutSid(rules, sid)| == |rules| { ErasureOfNothing(rules, sid); }
      var kept: seq<SignatureRule> := [];
      for i := 0 to |rules|
        invariant kept == WithoutSid(rules[..i], sid)
      {
        assert rules[..i + 1][..i] == rules[..i];
        if rules[i].sid != sid { kept := kept + [rules[i]]; }
      }
      assert rules[..|rules|] == rules;
      removed := |rules| - |kept|;
      rules := kept;
      if removed > 0 { Touch(); }
    }

    method Clear()
      requires Valid()
      modifies this
      ensures Valid() && rules == []
      ensures generation == old(generation) + (if old(rules) == [] then 0 else 1)
    {
      hide SidIndex, ClassIndex;
      if rules == [] { return; }
      rules := [];
      Touch();
    }

    /** The highest revision under a sid, the last added among equals; nothing is ever found under sid 0. */
    method FindLatestSid(sid: U32) returns (latest: Option<SignatureRule>)
      requires Valid()
      ensures latest.None? <==> sid == 0 || forall j :: 0 <= j < |rules| ==> rules[j].sid != sid
      ensures latest.Some? ==>
                exists k: nat :: k < |rules| && latest == Some(rules[k]) && rules[k].sid == sid
                                 && forall j :: 0 <= j < |rules| && rules[j].sid == sid ==> rules[j].rev <= rules[k].rev && (rules[j].rev == rules[k].rev ==> j <= k)
    {
      hide SidIndex, ClassIndex, SidPositions, BestOf, IsLatest;
      SidIndexIsExact(rules, sid);
      if sid !in sidIndex {
        ghost var none := SidPositions(rules, sid);
        if sid != 0 {
          forall j | 0 <= j < |rules| ensures rules[j].sid != sid { assert j !in none; }
        }
        return None;
      }
      var ps := sidIndex[sid];
      var best: int := -1;
      for i := 0 to |ps|
        invariant if i == 0 then best == -1 else 0 <= best < |rules| && BestOf(rules, ps[..i], best)
      {
        assert ps[i] in ps;
        assert ps[..i + 1] == ps[..i] + [ps[i]];
        BestSnoc(rules, ps[..i], if i == 0 then 0 else best, ps[i]);
        if ps[i] < |rules| && (best == -1 || rules[ps[i]].rev >= rules[best].rev) { best := ps[i]; }
      }
      assert ps[..|ps|] == ps;
      BestIsLatest(rules, sid, best);
      assert ps[0] in ps;
      LatestSpelled(rules, sid, best);
      return Some(rules[best]);
    }

    /** All rules of a class, letter case ignored, in list order. */
    method FindByClasstype(name: string) returns (out: seq<SignatureRule>)
      requires Valid()
      ensures forall i :: 0 <= i < |ClassPositions(rules, ToLower(name))| ==> ClassPositions(rules, ToLower(name))[i] < |rules|
      ensures out == RulesAt(rules, ClassPositions(rules, ToLower(name)))
    {
      hide SidIndex, ClassIndex, ToLower;
      ClassIndexIsExact(rules, ToLower(name));
      ghost var all := ClassPositions(rules, ToLower(name));
      assert forall i :: 0 <= i < |all| ==> all[i] in all;
      out := [];
      if ToLower(name) !in classIndex { return; }
      var ps := classIndex[ToLower(name)];
      for i := 0 to |ps|
        invariant |out| == i && forall j :: 0 <= j < i ==> ps[j] < |rules| && out[j] == rules[ps[j]]
      {
        assert ps[i] in ps;
        if ps[i] < |rules| { out := out + [rules[ps[i]]]; }
      }
    }

    method MatchPacket(v: PacketView) returns (hits: seq<nat>)
      ensures forall p :: p in hits <==> 0 <= p < |rules| && RuleMatchesPacket(rules[p], v)
      ensures forall i, j :: 0 <= i < j < |hits| ==> hits[i] < hits[j]
    {
      hide RuleMatchesPacket;
      hits := [];
      for i := 0 to |rules|
        invariant forall p :: p in hits <==> 0 <= p < i && RuleMatchesPacket(rules[p], v)
        invariant forall a, b :: 0 <= a < b < |hits| ==> hits[a] < hits[b]
      {
        if RuleMatchesPacket(rules[i], v) {
          assert forall a :: 0 <= a < |hits| ==> hits[a] in hits;
          hits := hits + [i];
        }
      }
    }
  }
}
