/** The index as a state machine over its records, and what holds over whole runs. */
module IndexRuns {
  import opened Text
  import opened Ipv4
  import opened Indicators
  import opened IndexSpec

  /** Identifiers and generations are taken as unbounded: the 64 and 32 bit counters are assumed not to wrap. */
  datatype Core = Core(nextId: nat, generation: nat, records: seq<IndexedIndicator>)

  datatype Op =
    | Add(indicator: Indicator)
    | RemoveId(id: nat)
    | RemoveKey(key: string)
    | ReactivateId(id: nat)
    | UpdateRole(id: nat, role: ListRole)
    | Rebuild
    | Compact

  const INITIAL := Core(1, 1, [])

  /** Fills in a missing normal form from the raw text. */
  function Prepared(i: Indicator): Indicator {
    if i.normalized != "" then i
    else match i.kind
      case Domain => i.(normalized := NormalizeDomain(i.raw))
      case Url => i.(normalized := NormalizeUrl(i.raw))
      case Hash => i.(normalized := NormalizeHash(i.raw))
      case _ => i
  }

  function SlotOf(rs: seq<IndexedIndicator>, id: nat): (r: Option<nat>)
    ensures r.Some? ==> r.value < |rs| && rs[r.value].id == id
    ensures r.None? ==> forall i :: 0 <= i < |rs| ==> rs[i].id != id
  {
    if rs == [] then None else if rs[|rs| - 1].id == id then Some(|rs| - 1) else SlotOf(rs[..|rs| - 1], id)
  }

  /** Replaces one record in place and stamps it with a fresh generation. */
  function Stamp(c: Core, slot: nat, r: IndexedIndicator): Core
    requires slot < |c.records|
  {
    Core(c.nextId, c.generation + 1, c.records[slot := r.(generation := c.generation)])
  }

  function SetActive(c: Core, id: nat, active: bool): Core {
    match SlotOf(c.records, id)
    case None => c
    case Some(s) =>
      if c.records[s].active == active then c else Stamp(c, s, c.records[s].(active := active))
  }

  function Compacted(rs: seq<IndexedIndicator>): seq<IndexedIndicator> {
    if rs == [] then [] else
      Compacted(rs[..|rs| - 1]) + (if rs[|rs| - 1].active then [rs[|rs| - 1]] else [])
  }

  function Step(c: Core, op: Op): Core {
    match op
    case Add(i) =>
      Core(c.nextId + 1, c.generation + 1, c.records + [IndexedIndicator(c.nextId, c.generation, true, Prepared(i))])
    case RemoveId(id) => SetActive(c, id, false)
    case RemoveKey(key) =>
      (match LastActive(c.records, key)
       case None => c
       case Some(s) => SetActive(c, c.records[s].id, false))
    case ReactivateId(id) => SetActive(c, id, true)
    case UpdateRole(id, role) =>
      (match SlotOf(c.records, id)
       case None => c
       case Some(s) => Stamp(c, s, c.records[s].(indicator := c.records[s].indicator.(role := role))))
    case Rebuild => c.(generation := c.generation + 1)
    case Compact => Core(c.nextId, c.generation + 1, Compacted(c.records))
  }

  function Run(c: Core, ops: seq<Op>): Core {
    if ops == [] then c else Step(Run(c, ops[..|ops| - 1]), ops[|ops| - 1])
  }

  /** Operations after which the trie has a root: filing an address, and everything that rebuilds. */
  predicate Roots(c: Core, op: Op) {
    match op
    case Add(i) => BucketOf(Prepared(i)).IpPath?
    case Rebuild => true
    case Compact => true
    case _ => Step(c, op) != c
  }

  predicate EverRooted(ops: seq<Op>) {
    ops != [] && (EverRooted(ops[..|ops| - 1]) || Roots(Run(INITIAL, ops[..|ops| - 1]), ops[|ops| - 1]))
  }

  lemma EverRootedSnoc(ops: seq<Op>, op: Op)
    ensures EverRooted(ops + [op]) <==> EverRooted(ops) || Roots(Run(INITIAL, ops), op)
  {
    hide Roots, Run;
    assert (ops + [op])[..|ops|] == ops;
  }

  lemma EverRootedCompact(ops: seq<Op>)
    ensures EverRooted(ops + [Compact])
  {
    hide EverRooted, Run;
    EverRootedSnoc(ops, Compact);
  }

  // ---- invariants of every run ----

  /** Ids rise with the slot and stay below the counter; generation stamps are distinct and below theirs. */
  ghost predicate Sound(c: Core) {
    && c.nextId > 0
    && (forall i :: 0 <= i < |c.records| ==> 0 < c.records[i].id < c.nextId)
    && (forall i, j :: 0 <= i < j < |c.records| ==> c.records[i].id < c.records[j].id)
    && (forall i :: 0 <= i < |c.records| ==> c.records[i].generation < c.generation)
    && (forall i, j :: 0 <= i < j < |c.records| ==> c.records[i].generation != c.records[j].generation)
  }

  lemma {:induction false} CompactedMembers(rs: seq<IndexedIndicator>, r: IndexedIndicator)
    ensures r in Compacted(rs) <==> r in rs && r.active
  {
    if rs != [] {
      CompactedMembers(rs[..|rs| - 1], r);
      assert rs == rs[..|rs| - 1] + [rs[|rs| - 1]];
    }
  }

  lemma SoundInit(c: Core)
    requires Sound(c) && c.records != []
    ensures Sound(c.(records := c.records[..|c.records| - 1]))
    ensures var last := c.records[|c.records| - 1];
            && 0 < last.id < c.nextId && last.generation < c.generation
            && forall r :: r in c.records[..|c.records| - 1] ==> r.id < last.id && r.generation != last.generation
  {}

  /** Compaction keeps the order of ids and the distinctness of stamps: the kept records are a subsequence. */
  lemma {:induction false} CompactSound(c: Core)
    requires Sound(c)
    ensures Sound(Core(c.nextId, c.generation + 1, Compacted(c.records)))
    decreases |c.records|
  {
    hide Sound;
    var rs := c.records;
    if rs == [] {
      SoundEmpty(c);
    } else {
      var init, last := rs[..|rs| - 1], rs[|rs| - 1];
      SoundInit(c);
      CompactSound(c.(records := init));
      var kept := Compacted(init);
      forall i | 0 <= i < |kept| ensures kept[i].id < last.id && kept[i].generation != last.generation {
        CompactedMembers(init, kept[i]);
      }
      assert Compacted(rs) == if last.active then kept + [last] else kept;
      if last.active { SoundAppend(Core(c.nextId, c.generation + 1, kept), last); }
    }
  }

  lemma SoundEmpty(c: Core)
    requires Sound(c)
    ensures Sound(Core(c.nextId, c.generation + 1, []))
  {}

  lemma SoundAppend(c: Core, last: IndexedIndicator)
    requires Sound(c) && 0 < last.id < c.nextId && last.generation < c.generation
    requires forall i :: 0 <= i < |c.records| ==> c.records[i].id < last.id && c.records[i].generation != last.generation
    ensures Sound(c.(records := c.records + [last]))
  {}

  lemma StampSound(c: Core, slot: nat, r: IndexedIndicator)
    requires Sound(c) && slot < |c.records| && r.id == c.records[slot].id
    ensures Sound(Stamp(c, slot, r))
  {}

  lemma StepSound(c: Core, op: Op)
    requires Sound(c)
    ensures Sound(Step(c, op))
  {
    hide Prepared, Stamp;
    match op
    case Compact => CompactSound(c);
    case Add(i) =>
      assert Step(c, op).records == c.records + [IndexedIndicator(c.nextId, c.generation, true, Prepared(i))];
    case Rebuild =>
    case UpdateRole(id, role) =>
      match SlotOf(c.records, id) {
        case None =>
        case Some(s) => StampSound(c, s, c.records[s].(indicator := c.records[s].indicator.(role := role)));
      }
    case ReactivateId(id) => SetActiveSound(c, id, true);
    case RemoveId(id) => SetActiveSound(c, id, false);
    case RemoveKey(key) =>
      match LastActive(c.records, key) {
        case None =>
        case Some(s) => SetActiveSound(c, c.records[s].id, false);
      }
  }

  lemma SetActiveSound(c: Core, id: nat, active: bool)
    requires Sound(c)
    ensures Sound(SetActive(c, id, active))
  {
    match SlotOf(c.records, id)
    case None =>
    case Some(s) => StampSound(c, s, c.records[s].(active := active));
  }

  lemma {:induction false} RunSound(c: Core, ops: seq<Op>)
    requires Sound(c)
    ensures Sound(Run(c, ops)) && Run(c, ops).nextId >= c.nextId
  {
    if ops != [] {
      RunSound(c, ops[..|ops| - 1]);
      StepSound(Run(c, ops[..|ops| - 1]), ops[|ops| - 1]);
    }
  }

  lemma RunSnoc(c: Core, ops: seq<Op>, op: Op)
    ensures Run(c, ops + [op]) == Step(Run(c, ops), op)
  {
    assert (ops + [op])[..|ops|] == ops;
  }

  lemma {:induction false} RunConcat(c: Core, a: seq<Op>, b: seq<Op>)
    ensures Run(c, a + b) == Run(Run(c, a), b)
  {
    if b == [] {
      assert a + b == a;
    } else {
      RunConcat(c, a, b[..|b| - 1]);
      assert (a + b)[..|a + b| - 1] == a + b[..|b| - 1];
    }
  }

  lemma SlotOfUnique(c: Core, s: nat)
    requires Sound(c) && s < |c.records|
    ensures SlotOf(c.records, c.records[s].id) == Some(s)
  {
    var t := SlotOf(c.records, c.records[s].id).value;
    assert c.records[t].id == c.records[s].id;
    assert !(t < s) && !(s < t);
  }

  /** The id still names a record, the same one up to role, flag and stamp. */
  lemma StepForgets(c: Core, op: Op, id: nat)
    requires Sound(c) && id < c.nextId && SlotOf(c.records, id).None?
    ensures id < Step(c, op).nextId && SlotOf(Step(c, op).records, id).None?
  {
    hide Prepared, Compacted, SlotOf, LastActive;
    var c' := Step(c, op);
    forall i | 0 <= i < |c'.records| ensures c'.records[i].id != id {
      if op.Compact? {
        CompactedMembers(c.records, c'.records[i]);
        var j :| 0 <= j < |c.records| && c.records[j] == c'.records[i];
      }
    }
  }

  /** Once an id stops resolving it never resolves again, whatever is done to the index. */
  lemma {:induction false} DroppedIdStaysDropped(c: Core, ops: seq<Op>, id: nat)
    requires Sound(c) && id < c.nextId && SlotOf(c.records, id).None?
    ensures SlotOf(Run(c, ops).records, id).None? && id < Run(c, ops).nextId
  {
    if ops != [] {
      DroppedIdStaysDropped(c, ops[..|ops| - 1], id);
      RunSound(c, ops[..|ops| - 1]);
      StepForgets(Run(c, ops[..|ops| - 1]), ops[|ops| - 1], id);
    }
  }

  // ---- compaction ----

  lemma {:induction false} CompactKeepsActive(rs: seq<IndexedIndicator>)
    ensures Active(Compacted(rs)) == Active(rs)
    ensures forall i :: 0 <= i < |Compacted(rs)| ==> Compacted(rs)[i].active
  {
    if rs != [] {
      var init, last := rs[..|rs| - 1], rs[|rs| - 1];
      CompactKeepsActive(init);
      if last.active {
        assert Compacted(rs)[..|Compacted(rs)| - 1] == Compacted(init);
      } else {
        assert Compacted(rs) == Compacted(init);
      }
    }
  }

  /** Every answer is a function of the active indicators, so compaction changes none of them, order included. */
  lemma CompactIsInvisible(c: Core, md: Observed, ip: U32, text: string, field: string)
    ensures var before, after := Active(c.records), Active(Step(c, Compact).records);
            && IpAnswer(after, ip, field) == IpAnswer(before, ip, field)
            && DomainAnswer(after, text, field) == DomainAnswer(before, text, field)
            && HashAnswer(after, text, field) == HashAnswer(before, text, field)
            && PacketAnswer(after, md) == PacketAnswer(before, md)
            && (HasKey(after, text) <==> HasKey(before, text))
  {
    hide IpAnswer, DomainAnswer, HashAnswer, PacketAnswer, HasKey, Active;
    CompactKeepsActive(c.records);
  }

  /** A record that compaction keeps still answers to its id; a dropped one no longer does. */
  lemma CompactResolves(c: Core, id: nat)
    requires Sound(c) && SlotOf(c.records, id).Some?
    ensures var rec := c.records[SlotOf(c.records, id).value];
            var after := Step(c, Compact).records;
            if rec.active then SlotOf(after, id).Some? && after[SlotOf(after, id).value] == rec
            else SlotOf(after, id).None?
  {
    hide Sound, SlotOf, Compacted;
    var rec := c.records[SlotOf(c.records, id).value];
    var after := Compacted(c.records);
    CompactSound(c);
    CompactedMembers(c.records, rec);
    if rec.active {
      assert rec in after;
      var i :| 0 <= i < |after| && after[i] == rec;
      SlotOfUnique(Step(c, Compact), i);
    } else if SlotOf(after, id).Some? {
      var kept := after[SlotOf(after, id).value];
      CompactedMembers(c.records, kept);
      var j :| 0 <= j < |c.records| && c.records[j] == kept;
      SlotOfUnique(c, j);
    }
  }

  // ---- removal and its undoing ----

  lemma {:induction false} ActiveIgnoresStamps(a: seq<IndexedIndicator>, b: seq<IndexedIndicator>)
    requires |a| == |b|
    requires forall i :: 0 <= i < |a| ==> a[i].active == b[i].active && a[i].indicator == b[i].indicator
    ensures Active(a) == Active(b)
  {
    if a != [] { ActiveIgnoresStamps(a[..|a| - 1], b[..|b| - 1]); }
  }

  /** Removing an active record and reactivating it restores every record up to its stamp. */
  lemma RemoveThenReactivate(c: Core, id: nat)
    requires Sound(c) && SlotOf(c.records, id).Some? && c.records[SlotOf(c.records, id).value].active
    ensures var back := Step(Step(c, RemoveId(id)), ReactivateId(id));
            var s := SlotOf(c.records, id).value;
            && Active(back.records) == Active(c.records)
            && back.records == c.records[s := c.records[s].(generation := c.generation + 1)]
            && Active(Step(c, RemoveId(id)).records) != Active(c.records)
  {
    hide Active, Sound, SlotOf, Stamp;
    var s := SlotOf(c.records, id).value;
    var gone := Step(c, RemoveId(id));
    SetActiveStamps(c, id, false);
    StepSound(c, RemoveId(id));
    SlotOfUnique(gone, s);
    SetActiveStamps(gone, id, true);
    ActiveIgnoresStamps(Step(gone, ReactivateId(id)).records, c.records);
    RemovedIsShorter(c.records, s, gone.records[s]);
  }

  lemma SetActiveStamps(c: Core, id: nat, active: bool)
    requires SlotOf(c.records, id).Some? && c.records[SlotOf(c.records, id).value].active != active
    ensures var s := SlotOf(c.records, id).value;
            SetActive(c, id, active) ==
              Core(c.nextId, c.generation + 1, c.records[s := c.records[s].(active := active, generation := c.generation)])
  {
    hide SlotOf;
  }

  lemma {:induction false} RemovedIsShorter(rs: seq<IndexedIndicator>, s: nat, r: IndexedIndicator)
    requires s < |rs| && rs[s].active && !r.active
    ensures |Active(rs[s := r])| == |Active(rs)| - 1
  {
    var init := rs[..|rs| - 1];
    if s == |rs| - 1 {
      assert rs[s := r][..|rs| - 1] == init;
    } else {
      RemovedIsShorter(init, s, r);
      assert rs[s := r][..|rs| - 1] == init[s := r];
    }
  }

  /** Active slots with a key, oldest first. */
  function KeySlots(rs: seq<IndexedIndicator>, key: string): (slots: seq<nat>)
    ensures forall s :: s in slots ==> s < |rs|
  {
    if rs == [] then [] else
      var last := rs[|rs| - 1];
      KeySlots(rs[..|rs| - 1], key) + (if last.active && IndicatorKey(last.indicator) == key then [|rs| - 1] else [])
  }

  lemma {:induction false} LastKeySlot(rs: seq<IndexedIndicator>, key: string)
    ensures var slots := KeySlots(rs, key);
            if slots == [] then LastActive(rs, key).None? else LastActive(rs, key) == Some(slots[|slots| - 1])
  {
    hide IndicatorKey;
    if rs != [] { LastKeySlot(rs[..|rs| - 1], key); }
  }

  lemma {:induction false} KeySlotsWithout(rs: seq<IndexedIndicator>, key: string, r: IndexedIndicator)
    requires !r.active && LastActive(rs, key).Some?
    ensures var slots := KeySlots(rs, key);
            slots != [] && KeySlots(rs[LastActive(rs, key).value := r], key) == slots[..|slots| - 1]
  {
    hide IndicatorKey;
    var s := LastActive(rs, key).value;
    var init := rs[..|rs| - 1];
    if s == |rs| - 1 {
      assert rs[s := r][..|rs| - 1] == init;
    } else {
      KeySlotsWithout(init, key, r);
      assert rs[s := r][..|rs| - 1] == init[s := r];
    }
  }

  function Times(n: nat, op: Op): seq<Op> { if n == 0 then [] else Times(n - 1, op) + [op] }

  lemma PeelOne(c: Core, key: string)
    requires Sound(c) && KeySlots(c.records, key) != []
    ensures var slots := KeySlots(c.records, key);
            && LastActive(c.records, key) == Some(slots[|slots| - 1])
            && KeySlots(Step(c, RemoveKey(key)).records, key) == slots[..|slots| - 1]
            && |Step(c, RemoveKey(key)).records| == |c.records|
            && !Step(c, RemoveKey(key)).records[slots[|slots| - 1]].active
  {
    hide IndicatorKey;
    LastKeySlot(c.records, key);
    var s := LastActive(c.records, key).value;
    SlotOfUnique(c, s);
    KeySlotsWithout(c.records, key, Step(c, RemoveKey(key)).records[s]);
  }

  lemma {:induction false} PeelSlots(c: Core, key: string, k: nat)
    requires Sound(c)
    ensures var slots := KeySlots(c.records, key);
            KeySlots(Run(c, Times(k, RemoveKey(key))).records, key) == slots[..if k <= |slots| then |slots| - k else 0]
  {
    hide IndicatorKey, Step, Run, KeySlots, Sound;
    var slots := KeySlots(c.records, key);
    if k == 0 {
      assert Times(0, RemoveKey(key)) == [] && Run(c, []) == c by { RunNothing(c); }
      assert slots[..|slots|] == slots;
    } else {
      PeelSlots(c, key, k - 1);
      var before := Run(c, Times(k - 1, RemoveKey(key)));
      RunSnoc(c, Times(k - 1, RemoveKey(key)), RemoveKey(key));
      RunSound(c, Times(k - 1, RemoveKey(key)));
      if k <= |slots| {
        PeelOne(before, key);
        assert slots[..|slots| - (k - 1)][..|slots| - k] == slots[..|slots| - k];
      } else {
        NothingToPeel(before, key);
      }
    }
  }

  lemma RunNothing(c: Core)
    ensures Run(c, []) == c
  {}

  lemma NothingToPeel(c: Core, key: string)
    requires KeySlots(c.records, key) == []
    ensures Step(c, RemoveKey(key)) == c
  {
    LastKeySlot(c.records, key);
  }

  /**
   * With n active records under a key, the first n removals by that key succeed,
   * each taking the newest one left, and every later removal changes nothing;
   * the key is contained until the n-th removal.
   */
  lemma DuplicatesPeel(c: Core, key: string, k: nat)
    requires Sound(c)
    ensures var slots := KeySlots(c.records, key);
            var n := |slots|;
            var after := Run(c, Times(k, RemoveKey(key)));
            && (HasKey(Active(after.records), key) <==> k < n)
            && (k >= n ==> Step(after, RemoveKey(key)) == after)
            && (k < n ==> LastActive(after.records, key) == Some(slots[n - k - 1])
                          && slots[n - k - 1] < |Step(after, RemoveKey(key)).records|
                          && !Step(after, RemoveKey(key)).records[slots[n - k - 1]].active)
  {
    hide IndicatorKey, Step, Run, HasKey, KeySlots, LastActive, Sound, Active, Times;
    var slots := KeySlots(c.records, key);
    var ops := Times(k, RemoveKey(key));
    var after := Run(c, ops);
    PeelSlots(c, key, k);
    RunSound(c, ops);
    KeyedIffHasKey(after.records, key);
    LastKeySlot(after.records, key);
    if k < |slots| {
      PeelOne(after, key);
      assert slots[..|slots| - k][|slots| - k - 1] == slots[|slots| - k - 1];
    } else {
      NothingToPeel(after, key);
    }
  }
}
