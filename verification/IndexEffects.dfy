/** What the changes to an index do to its records, and what a change of role does to keys and to matches. */
module IndexEffects {
  import opened Text
  import opened Indicators
  import opened DomainNames
  import opened IndexSpec
  import opened IndexRuns
  import opened Refinement
  import opened PacketReports
  import opened IndicatorText

  lemma {:induction false} ActiveReplaced(rs: seq<IndexedIndicator>, s: nat, r: IndexedIndicator)
    requires s < |rs| && rs[s].active && r.active
    ensures var k := |Active(rs[..s])|;
            k < |Active(rs)| && Active(rs)[k] == rs[s].indicator && Active(rs[s := r]) == Active(rs)[k := r.indicator]
  {
    var init := rs[..|rs| - 1];
    if s == |rs| - 1 {
      assert rs[s := r][..|rs| - 1] == init;
    } else {
      ActiveReplaced(init, s, r);
      assert rs[s := r][..|rs| - 1] == init[s := r] && init[..s] == rs[..s];
    }
  }

  /** A successful role update changes one record, in its role and its stamp, and nothing else of it. */
  lemma RoleUpdateChanges(c: Core, id: nat, role: ListRole)
    requires Sound(c)
    ensures var after := Step(c, UpdateRole(id, role));
            && |after.records| == |c.records| && after.nextId == c.nextId
            && forall i :: 0 <= i < |c.records| ==>
                 var r, r' := c.records[i], after.records[i];
                 if r.id != id then r' == r
                 else r'.indicator.role == role && r'.indicator == r.indicator.(role := role)
                      && r'.id == id && r'.active == r.active && r'.generation == c.generation
  {
    hide Sound;
    forall i | 0 <= i < |c.records| && c.records[i].id == id ensures SlotOf(c.records, id) == Some(i) { SlotOfUnique(c, i); }
  }

  /** Of two role updates of one id the last one stands: the first leaves no trace but the generation. */
  lemma LastRoleWins(c: Core, id: nat, first: ListRole, last: ListRole)
    requires Sound(c) && SlotOf(c.records, id).Some?
    ensures var twice := Step(Step(c, UpdateRole(id, first)), UpdateRole(id, last));
            var once := Step(c, UpdateRole(id, last));
            && Active(twice.records) == Active(once.records)
            && twice.records == once.records[SlotOf(c.records, id).value := once.records[SlotOf(c.records, id).value].(generation := c.generation + 1)]
  {
    hide Sound, SlotOf, Active;
    var s := SlotOf(c.records, id).value;
    StepSound(c, UpdateRole(id, first));
    SlotOfUnique(Step(c, UpdateRole(id, first)), s);
    ActiveIgnoresStamps(Step(Step(c, UpdateRole(id, first)), UpdateRole(id, last)).records, Step(c, UpdateRole(id, last)).records);
  }

  /** Updating a role and updating it back restores every record up to its stamp. */
  lemma RoleUpdateUndone(c: Core, id: nat, role: ListRole)
    requires Sound(c) && SlotOf(c.records, id).Some?
    ensures var s := SlotOf(c.records, id).value;
            var back := Step(Step(c, UpdateRole(id, role)), UpdateRole(id, c.records[s].indicator.role));
            && Active(back.records) == Active(c.records)
            && back.records == c.records[s := c.records[s].(generation := c.generation + 1)]
  {
    hide Sound, SlotOf, Active;
    var s := SlotOf(c.records, id).value;
    StepSound(c, UpdateRole(id, role));
    SlotOfUnique(Step(c, UpdateRole(id, role)), s);
    ActiveIgnoresStamps(Step(Step(c, UpdateRole(id, role)), UpdateRole(id, c.records[s].indicator.role)).records, c.records);
  }

  /** Updating the role of an inactive record changes no answer: the active list stays. */
  lemma {:induction false} InactiveReplaced(rs: seq<IndexedIndicator>, s: nat, r: IndexedIndicator)
    requires s < |rs| && !rs[s].active && !r.active
    ensures Active(rs[s := r]) == Active(rs)
  {
    var init := rs[..|rs| - 1];
    if s == |rs| - 1 {
      assert rs[s := r][..|rs| - 1] == init;
    } else {
      InactiveReplaced(init, s, r);
      assert rs[s := r][..|rs| - 1] == init[s := r];
    }
  }

  /** For an active record exactly one entry of the active list changes, and only in its role. */
  lemma RoleUpdateInActive(c: Core, id: nat, role: ListRole)
    requires SlotOf(c.records, id).Some?
    ensures var s := SlotOf(c.records, id).value;
            var r, before, after := c.records[s], Active(c.records), Active(Step(c, UpdateRole(id, role)).records);
            var k := |Active(c.records[..s])|;
            if r.active then k < |before| && before[k] == r.indicator && after == before[k := r.indicator.(role := role)]
            else after == before
  {
    hide SlotOf;
    var s := SlotOf(c.records, id).value;
    var r := c.records[s];
    var r' := r.(indicator := r.indicator.(role := role), generation := c.generation);
    if r.active { ActiveReplaced(c.records, s, r'); } else { InactiveReplaced(c.records, s, r'); }
  }

  /** An active record elsewhere holds the key. */
  ghost predicate KeyElsewhere(rs: seq<IndexedIndicator>, s: nat, key: string) {
    exists t: nat :: t < |rs| && t != s && rs[t].active && IndicatorKey(rs[t].indicator) == key
  }

  lemma HasKeyBySlot(rs: seq<IndexedIndicator>, key: string)
    ensures HasKey(Active(rs), key) <==> exists t: nat :: t < |rs| && rs[t].active && IndicatorKey(rs[t].indicator) == key
  {
    hide IndicatorKey;
    if HasKey(Active(rs), key) {
      var i :| i in Active(rs) && IndicatorKey(i) == key;
      ActiveMembers(rs, i);
      var t: int :| 0 <= t < |rs| && rs[t].active && rs[t].indicator == i;
      var u: nat := t;
      assert rs[u].active && IndicatorKey(rs[u].indicator) == key;
    }
    if t: nat :| t < |rs| && rs[t].active && IndicatorKey(rs[t].indicator) == key { ActiveMembers(rs, rs[t].indicator); }
  }

  /**
   * Updating the role of an active record moves its key: the new key is
   * contained, the old one only if it did not change or another active record
   * has it, and every other key is contained exactly when it was.
   */
  lemma RoleUpdateMovesKey(c: Core, id: nat, role: ListRole, key: string)
    requires Sound(c) && SlotOf(c.records, id).Some? && c.records[SlotOf(c.records, id).value].active
    ensures var s := SlotOf(c.records, id).value;
            var ind, after := c.records[s].indicator, Active(Step(c, UpdateRole(id, role)).records);
            && HasKey(after, IndicatorKey(ind.(role := role)))
            && (HasKey(after, IndicatorKey(ind)) <==> role == ind.role || KeyElsewhere(c.records, s, IndicatorKey(ind)))
            && (key != IndicatorKey(ind) && key != IndicatorKey(ind.(role := role)) ==> (HasKey(after, key) <==> HasKey(Active(c.records), key)))
  {
    hide IndicatorKey, SlotOf, Sound, Active, HasKey;
    var s := SlotOf(c.records, id).value;
    var ind := c.records[s].indicator;
    var rs := Step(c, UpdateRole(id, role)).records;
    KeyIsInjective(ind, ind.(role := role));
    HasKeyBySlot(rs, IndicatorKey(ind.(role := role)));
    assert rs[s].active && rs[s].indicator == ind.(role := role);
    HasKeyBySlot(rs, IndicatorKey(ind));
    if role != ind.role {
      if t: nat :| t < |rs| && rs[t].active && IndicatorKey(rs[t].indicator) == IndicatorKey(ind) {
        assert t != s && c.records[t] == rs[t];
      }
      if KeyElsewhere(c.records, s, IndicatorKey(ind)) {
        var t: nat :| t < |c.records| && t != s && c.records[t].active && IndicatorKey(c.records[t].indicator) == IndicatorKey(ind);
        assert rs[t] == c.records[t];
      }
    }
    HasKeyBySlot(rs, key);
    HasKeyBySlot(c.records, key);
    if key != IndicatorKey(ind) && key != IndicatorKey(ind.(role := role)) {
      if t: nat :| t < |rs| && rs[t].active && IndicatorKey(rs[t].indicator) == key { assert t != s && c.records[t] == rs[t]; }
      if t: nat :| t < |c.records| && c.records[t].active && IndicatorKey(c.records[t].indicator) == key { assert t != s && rs[t] == c.records[t]; }
    }
  }

  /** Once an active indicator that hits a name is allow-listed, only allow-listed indicators are reported for that name. */
  lemma AllowingSilencesName(ops: seq<Op>, id: nat, md: Observed, name: string, i: Indicator)
    requires FilesConsistent(ops) && name in md.names && forall n :: n in md.names ==> Clean(n)
    requires var rs := Run(INITIAL, ops).records;
             SlotOf(rs, id).Some? && rs[SlotOf(rs, id).value].active && WatchesName(rs[SlotOf(rs, id).value].indicator, name)
    ensures var after := Active(Run(INITIAL, ops + [UpdateRole(id, Allow)]).records);
            MatchResult(i, "dns.name", NormalizeDomain(name)) in PacketAnswer(after, md) <==> i in after && i.role == Allow && WatchesName(i, name)
  {
    hide *;
    var c := Run(INITIAL, ops);
    var s := SlotOf(c.records, id).value;
    var ind := c.records[s].indicator;
    RunSnoc(INITIAL, ops, UpdateRole(id, Allow));
    var after := Active(Run(INITIAL, ops + [UpdateRole(id, Allow)]).records);
    RoleUpdateInActive(c, id, Allow);
    AllowedMember(after, Active(c.records), |Active(c.records[..s])|, ind.(role := Allow));
    WatchesWithAnyRole(ind, name);
    FilesMore(ops, UpdateRole(id, Allow));
    IndexReportsNames(ops + [UpdateRole(id, Allow)], md, i, name);
  }

  lemma AllowedMember(after: seq<Indicator>, before: seq<Indicator>, k: nat, i: Indicator)
    requires k < |before| && after == before[k := i]
    ensures i in after
  {
    assert after[k] == i;
  }

  lemma WatchesWithAnyRole(i: Indicator, name: string)
    ensures WatchesName(i.(role := Allow), name) == WatchesName(i, name) && i.(role := Allow).role == Allow
  {}

  lemma FilesMore(ops: seq<Op>, op: Op)
    requires FilesConsistent(ops) && !op.Add?
    ensures FilesConsistent(ops + [op])
  {
    hide Consistent, Prepared;
  }

  /** An indicator added without a normal form gets the one that reading its raw text would give; any other stays as it is. */
  lemma PreparedAsRead(i: Indicator)
    requires i.ip.None? && i.cidr.None?
    ensures i.normalized != "" || i.kind in {Ip, Cidr, Unknown} ==> Prepared(i) == i
    ensures i.normalized == "" && i.kind in {Domain, Url, Hash} && Classify(i, i.raw).Some? ==> Prepared(i) == Classify(i, i.raw).value
  {
    hide NormalizeDomain, NormalizeUrl, NormalizeHash, DomainLike;
    if i.kind == Hash { HashIsStable(i.raw); }
  }
}
