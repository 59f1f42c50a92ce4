/** The stateful indicator index: records mirrored by an id map, a key map, a domain map, a hash map and a trie. */
module IndicatorIndexes {
  import opened Collections
  import opened Text
  import opened Ipv4
  import opened Indicators
  import opened Trie
  import opened IndexSpec
  import opened IndexRuns

  /** The trie has no node until the first address is filed or the index is rebuilt. */
  function Rooted(t: seq<TrieNode>): seq<TrieNode> { if t == [] then [EMPTY_NODE] else t }

  /** The id map is exactly the bijection between ids and slots. */
  ghost predicate IdsOf(ids: map<nat, nat>, rs: seq<IndexedIndicator>) {
    && (forall i: nat :: i < |rs| ==> rs[i].id in ids && ids[rs[i].id] == i)
    && (forall id :: id in ids ==> ids[id] < |rs| && rs[ids[id]].id == id)
  }

  lemma IdsOfAppended(ids: map<nat, nat>, c: Core, r: IndexedIndicator)
    requires Sound(c) && IdsOf(ids, c.records) && r.id == c.nextId
    ensures IdsOf(ids[r.id := |c.records|], c.records + [r])
  {}

  lemma IdsOfReplaced(ids: map<nat, nat>, rs: seq<IndexedIndicator>, slot: nat, r: IndexedIndicator)
    requires IdsOf(ids, rs) && slot < |rs| && r.id == rs[slot].id
    ensures IdsOf(ids, rs[slot := r])
  {}

  lemma IdIsSlot(ids: map<nat, nat>, c: Core, id: nat)
    requires Sound(c) && IdsOf(ids, c.records)
    ensures id in ids <==> SlotOf(c.records, id).Some?
    ensures id in ids ==> SlotOf(c.records, id) == Some(ids[id]) && ids[id] < |c.records| && c.records[ids[id]].id == id
  {
    hide Sound, SlotOf;
    if id in ids { SlotOfUnique(c, ids[id]); }
  }

  datatype IndexStats = IndexStats(total: nat, active: nat, inactive: nat, cidrNodes: nat, domainKeys: nat, hashKeys: nat, generation: nat)

  class IndicatorIndex {
    var nextId: nat
    var generation: nat
    var records: seq<IndexedIndicator>
    var idToSlot: map<nat, nat>
    var keyToSlot: map<string, nat>
    var domains: map<string, seq<nat>>
    var hashes: map<string, seq<nat>>
    var cidrTrie: seq<TrieNode>
    ghost var history: seq<Op>  // every operation since construction

    ghost function Model(): Core
      reads this
    {
      Core(nextId, generation, records)
    }

    ghost function Derived(): Indexes
      reads this
    {
      Indexes(keyToSlot, domains, hashes, Rooted(cidrTrie))
    }

    /**
     * The records follow from the history, the incremental indexes are what a
     * rebuild would give, and the trie has a root once something rooted it:
     * the whole state is determined by the operations so far.
     */
    ghost predicate Valid()
      reads this
    {
      && Model() == Run(INITIAL, history)
      && IdsOf(idToSlot, records)
      && Derived() == Batch(records)
      && (cidrTrie != [] <==> EverRooted(history))
    }

    constructor ()
      ensures Valid() && records == [] && history == [] && cidrTrie == []
    {
      nextId, generation, records := 1, 1, [];
      idToSlot, keyToSlot, domains, hashes, cidrTrie := map[], map[], map[], map[], [];
      history := [];
    }

    ghost predicate Logged(before: seq<Op>, op: Op)
      reads this
    {
      history == before + [op]
    }

    /** One record of the list is another now, and the generation has moved on. */
    ghost predicate Changed(before: seq<IndexedIndicator>, stamp: nat, s: nat, r: IndexedIndicator)
      reads this
    {
      s < |before| && records == before[s := r] && generation == stamp + 1
    }

    // ---- index maintenance ----

    method IndexRecord(slot: nat)
      requires Linked(Rooted(cidrTrie))
      modifies this`domains, this`hashes, this`cidrTrie
      ensures slot >= |records| || !records[slot].active ==> Derived() == old(Derived()) && cidrTrie == old(cidrTrie)
      ensures slot < |records| && records[slot].active ==>
                Derived() == IndexSpec.IndexRecord(old(Derived()), slot, records[slot].indicator)
      ensures cidrTrie != [] <==> old(cidrTrie) != [] || (slot < |records| && records[slot].active && BucketOf(records[slot].indicator).IpPath?)
    {
      hide Insert, Linked, NormalizeDomain, NormalizeHash, UrlHost, PathOf;
      if slot >= |records| || !records[slot].active { return; }
      var ind := records[slot].indicator;
      if ind.kind == Domain || ind.kind == Url {
        var domain := ind.normalized;
        if ind.kind == Url { domain := UrlHost(ind.normalized); }
        var key := NormalizeDomain(domain);
        domains := domains[key := (if key in domains then domains[key] else []) + [slot]];
      } else if ind.kind == Hash {
        var key := NormalizeHash(ind.normalized);
        hashes := hashes[key := (if key in hashes then hashes[key] else []) + [slot]];
      } else if ind.kind == Ip || ind.kind == Cidr {
        var range := ind.cidr;
        if range.None? && ind.ip.Some? { range := Some(CidrRange(ind.ip.value, 32)); }
        if range.None? { return; }
        if cidrTrie == [] { cidrTrie := [EMPTY_NODE]; }
        FileRange(range.value, slot);
      }
    }

    /** The bit loop: descend, linking a new node wherever a child is missing. */
    method FileRange(range: CidrRange, slot: nat)
      requires range.prefix <= 32 && Linked(cidrTrie)
      modifies this`cidrTrie
      ensures Linked(cidrTrie) && cidrTrie == Insert(old(cidrTrie), 0, PathOf(range), slot)
    {
      ghost var path := PathOf(range);
      var node: nat := 0;
      var bit := 0;
      assert path[0..] == path;
      while bit < range.prefix
        invariant bit <= range.prefix && Linked(cidrTrie) && node < |cidrTrie|
        invariant Insert(cidrTrie, node, path[bit..], slot) == Insert(old(cidrTrie), 0, path, slot)
      {
        var branch := Bit(range.network, bit);
        assert path[bit..][0] == branch && path[bit..][1..] == path[bit + 1..];
        if cidrTrie[node].Child(branch) < 0 {
          cidrTrie := Grow(cidrTrie, node, branch);
        }
        node := cidrTrie[node].Child(branch);
        bit := bit + 1;
      }
      cidrTrie := cidrTrie[node := cidrTrie[node].(records := cidrTrie[node].records + [slot])];
    }

    method RebuildIndexes()
      modifies this`keyToSlot, this`domains, this`hashes, this`cidrTrie
      ensures Derived() == Batch(records) && cidrTrie == Batch(records).trie && cidrTrie != []
    {
      hide Batch, BucketOf, IndicatorKey, IndexSpec.IndexRecord, Linked;
      keyToSlot, domains, hashes, cidrTrie := map[], map[], map[], [EMPTY_NODE];
      EmptyBatch();
      assert records[..0] == [];
      for i := 0 to |records|
        invariant Derived() == Batch(records[..i]) && cidrTrie != []
      {
        assert records[..i + 1] == records[..i] + [records[i]];
        BatchSnoc(records[..i], records[i]);
        if records[i].active {
          keyToSlot := keyToSlot[IndicatorKey(records[i].indicator) := i];
          IndexRecord(i);
        }
      }
      assert records[..|records|] == records;
    }

    /** Replaces one record, restamps it and rebuilds: the tail shared by the three in-place updates. */
    method Restamp(slot: nat, record: IndexedIndicator)
      requires slot < |records| && record.id == records[slot].id && IdsOf(idToSlot, records)
      modifies this`records, this`generation, this`keyToSlot, this`domains, this`hashes, this`cidrTrie
      ensures Model() == Stamp(old(Model()), slot, record)
      ensures IdsOf(idToSlot, records) && Derived() == Batch(records) && cidrTrie != []
    {
      hide IdsOf, Batch;
      IdsOfReplaced(idToSlot, records, slot, record.(generation := generation));
      records := records[slot := record.(generation := generation)];
      generation := generation + 1;
      RebuildIndexes();
    }

    // ---- mutations ----

    method Add(indicator: Indicator) returns (id: nat)
      requires Valid()
      modifies this
      ensures Valid() && Logged(old(history), Op.Add(indicator))
      ensures id == old(nextId) && nextId == id + 1 && generation == old(generation) + 1
      ensures records == old(records) + [IndexedIndicator(id, old(generation), true, Prepared(indicator))]
      ensures Active(records) == old(Active(records)) + [Prepared(indicator)]
    {
      hide Batch, Active, BucketOf, IndicatorKey, Prepared, Run, EverRooted, Linked, Insert, Sound, IdsOf;
      BatchSnocActive(records, IndexedIndicator(nextId, generation, true, Prepared(indicator)));
      RunSound(INITIAL, history);
      IdsOfAppended(idToSlot, Model(), IndexedIndicator(nextId, generation, true, Prepared(indicator)));
      var normalized := Prepared(indicator);
      var slot := |records|;
      var rec := IndexedIndicator(nextId, generation, true, normalized);
      ghost var before := records;
      records := records + [rec];
      nextId, generation := nextId + 1, generation + 1;
      idToSlot := idToSlot[rec.id := slot];
      keyToSlot := keyToSlot[IndicatorKey(normalized) := slot];
      IndexRecord(slot);
      id := rec.id;
      history := history + [Op.Add(indicator)];
      ActiveSnoc(before, rec);
      RunSnoc(INITIAL, old(history), Op.Add(indicator));
      EverRootedSnoc(old(history), Op.Add(indicator));
    }

    method AddSet(indicators: seq<Indicator>) returns (added: nat)
      requires Valid()
      modifies this
      ensures Valid() && added == |indicators|
      ensures history == old(history) + Adds(indicators)
      ensures Active(records) == old(Active(records)) + AllPrepared(indicators)
    {
      hide Valid, Active, Adds, AllPrepared, Prepared;
      added := 0;
      NothingAdded();
      assert indicators[..0] == [];
      for i := 0 to |indicators|
        invariant Valid() && added == i
        invariant history == old(history) + Adds(indicators[..i])
        invariant Active(records) == old(Active(records)) + AllPrepared(indicators[..i])
      {
        var _ := Add(indicators[i]);
        AddsSnoc(indicators, i);
        added := added + 1;
      }
      assert indicators[..|indicators|] == indicators;
    }

    method RemoveId(id: nat) returns (ok: bool)
      requires Valid()
      modifies this
      ensures Valid() && Logged(old(history), Op.RemoveId(id))
      ensures ok <==> SlotOf(old(records), id).Some? && old(records)[SlotOf(old(records), id).value].active
      ensures ok ==> var s := SlotOf(old(records), id).value;
                     Changed(old(records), old(generation), s, old(records)[s].(active := false, generation := old(generation)))
      ensures !ok ==> Model() == old(Model()) && Derived() == old(Derived())
    {
      hide Batch, Active, BucketOf, IndicatorKey, Prepared, Run, EverRooted;
      ok := Deactivate(id);
      history := history + [Op.RemoveId(id)];
      RunSnoc(INITIAL, old(history), Op.RemoveId(id));
      EverRootedSnoc(old(history), Op.RemoveId(id));
    }

    /** Body of the removal by id, shared with the removal by key. */
    method Deactivate(id: nat) returns (ok: bool)
      requires Valid()
      modifies this`records, this`generation, this`keyToSlot, this`domains, this`hashes, this`cidrTrie
      ensures Model() == SetActive(old(Model()), id, false) && IdsOf(idToSlot, records) && Derived() == Batch(records)
      ensures ok <==> SlotOf(old(records), id).Some? && old(records)[SlotOf(old(records), id).value].active
      ensures !ok ==> Model() == old(Model()) && Derived() == old(Derived()) && cidrTrie == old(cidrTrie)
      ensures ok ==> cidrTrie != [] && Model() != old(Model())
      ensures ok ==> var s := SlotOf(old(records), id).value;
                     Changed(old(records), old(generation), s, old(records)[s].(active := false, generation := old(generation)))
    {
      hide Batch, Active, BucketOf, IndicatorKey, Prepared, Run, EverRooted, IdsOf, Sound, SlotOf;
      RunSound(INITIAL, history);
      IdIsSlot(idToSlot, Model(), id);
      if id !in idToSlot { return false; }
      var slot := idToSlot[id];
      if !records[slot].active { return false; }
      Restamp(slot, records[slot].(active := false));
      return true;
    }

    method RemoveKey(key: string) returns (ok: bool)
      requires Valid()
      modifies this
      ensures Valid() && Logged(old(history), Op.RemoveKey(key))
      ensures ok <==> HasKey(old(Active(records)), key)
      ensures ok ==> LastActive(old(records), key).Some? &&
                     var s := LastActive(old(records), key).value;
                     Changed(old(records), old(generation), s, old(records)[s].(active := false, generation := old(generation)))
      ensures !ok ==> Model() == old(Model()) && Derived() == old(Derived())
    {
      hide Batch, Active, BucketOf, IndicatorKey, Prepared, Run, EverRooted, IdsOf, Sound, SlotOf;
      RunSound(INITIAL, history);
      BatchKeys(records, key);
      KeyedIffHasKey(records, key);
      if key in keyToSlot {
        SlotOfUnique(Model(), keyToSlot[key]);
        ok := Deactivate(records[keyToSlot[key]].id);
      } else {
        ok := false;
      }
      history := history + [Op.RemoveKey(key)];
      RunSnoc(INITIAL, old(history), Op.RemoveKey(key));
      EverRootedSnoc(old(history), Op.RemoveKey(key));
    }

    method ReactivateId(id: nat) returns (ok: bool)
      requires Valid()
      modifies this
      ensures Valid() && Logged(old(history), Op.ReactivateId(id))
      ensures ok <==> SlotOf(old(records), id).Some? && !old(records)[SlotOf(old(records), id).value].active
      ensures ok ==> var s := SlotOf(old(records), id).value;
                     Changed(old(records), old(generation), s, old(records)[s].(active := true, generation := old(generation)))
      ensures !ok ==> Model() == old(Model()) && Derived() == old(Derived())
    {
      hide Batch, Active, BucketOf, IndicatorKey, Prepared, Run, EverRooted, IdsOf, Sound, SlotOf;
      RunSound(INITIAL, history);
      history := history + [Op.ReactivateId(id)];
      RunSnoc(INITIAL, old(history), Op.ReactivateId(id));
      EverRootedSnoc(old(history), Op.ReactivateId(id));
      IdIsSlot(idToSlot, Model(), id);
      if id !in idToSlot { return false; }
      var slot := idToSlot[id];
      if records[slot].active { return false; }
      Restamp(slot, records[slot].(active := true));
      return true;
    }

    method UpdateRole(id: nat, role: ListRole) returns (ok: bool)
      requires Valid()
      modifies this
      ensures Valid() && Logged(old(history), Op.UpdateRole(id, role))
      ensures ok <==> SlotOf(old(records), id).Some?
      ensures ok ==> var s := SlotOf(old(records), id).value;
                     var changed := old(records)[s].indicator.(role := role);
                     Changed(old(records), old(generation), s, old(records)[s].(indicator := changed, generation := old(generation)))
      ensures !ok ==> Model() == old(Model()) && Derived() == old(Derived())
    {
      hide Batch, Active, BucketOf, IndicatorKey, Prepared, Run, EverRooted, IdsOf, Sound, SlotOf;
      RunSound(INITIAL, history);
      history := history + [Op.UpdateRole(id, role)];
      RunSnoc(INITIAL, old(history), Op.UpdateRole(id, role));
      EverRootedSnoc(old(history), Op.UpdateRole(id, role));
      IdIsSlot(idToSlot, Model(), id);
      if id !in idToSlot { return false; }
      var slot := idToSlot[id];
      Restamp(slot, records[slot].(indicator := records[slot].indicator.(role := role)));
      return true;
    }

    /** Reassigns the id map from the records, then every other index. */
    method ReindexAll()
      requires forall i, j :: 0 <= i < j < |records| ==> records[i].id != records[j].id
      modifies this`idToSlot, this`keyToSlot, this`domains, this`hashes, this`cidrTrie, this`generation
      ensures IdsOf(idToSlot, records) && Derived() == Batch(records) && generation == old(generation) + 1
      ensures cidrTrie == Batch(records).trie && cidrTrie != []
    {
      hide Batch, Active, BucketOf, IndicatorKey, Rooted;
      idToSlot := map[];
      for i := 0 to |records|
        invariant forall j: nat :: j < i ==> records[j].id in idToSlot && idToSlot[records[j].id] == j
        invariant forall id :: id in idToSlot ==> idToSlot[id] < i && records[idToSlot[id]].id == id
        invariant generation == old(generation)
      {
        idToSlot := idToSlot[records[i].id := i];
      }
      RebuildIndexes();
      generation := generation + 1;
    }

    method Rebuild()
      requires Valid()
      modifies this
      ensures Valid() && Logged(old(history), Op.Rebuild)
      ensures records == old(records) && nextId == old(nextId) && generation == old(generation) + 1
      ensures cidrTrie == Batch(records).trie
    {
      hide Batch, Active, BucketOf, IndicatorKey, Prepared, Run, EverRooted;
      RunSound(INITIAL, history);
      ReindexAll();
      history := history + [Op.Rebuild];
      RunSnoc(INITIAL, old(history), Op.Rebuild);
      EverRootedSnoc(old(history), Op.Rebuild);
    }

    method Compact()
      requires Valid()
      modifies this
      ensures Valid() && Logged(old(history), Op.Compact)
      ensures Active(records) == old(Active(records))
      ensures forall r :: r in records <==> r in old(records) && r.active
      ensures nextId == old(nextId) && generation == old(generation) + 1
    {
      hide Batch, Active, BucketOf, IndicatorKey, Prepared, Run, EverRooted, Step, Sound, Roots, Compacted, Rooted, SlotOf;
      RunSound(INITIAL, history);
      CompactSound(Model());
      StepCompacts(Model());
      CompactKeepsActive(records);
      forall r ensures r in Compacted(records) <==> r in records && r.active { CompactedMembers(records, r); }
      RunSnoc(INITIAL, history, Op.Compact);
      EverRootedCompact(history);
      DistinctIds(Core(nextId, generation + 1, Compacted(records)));
      records := KeepActive();
      ReindexAll();
      history := history + [Op.Compact];
    }

    /** The copy loop of the compaction. */
    method KeepActive() returns (compacted: seq<IndexedIndicator>)
      ensures compacted == Compacted(records)
    {
      compacted := [];
      for i := 0 to |records|
        invariant compacted == Compacted(records[..i])
      {
        assert records[..i + 1][..i] == records[..i];
        if records[i].active { compacted := compacted + [records[i]]; }
      }
      assert records[..|records|] == records;
    }

    // ---- queries ----

    method ContainsKey(key: string) returns (found: bool)
      requires Valid()
      ensures found <==> HasKey(Active(records), key)
    {
      BatchKeys(records, key);
      KeyedIffHasKey(records, key);
      found := key in keyToSlot && records[keyToSlot[key]].active;
    }

    method AppendSlots(slots: seq<nat>, field: string, value: string, found: seq<MatchResult>) returns (out: seq<MatchResult>)
      requires SlotsOf(records, slots)
      ensures out == found + Tag(IndicatorsAt(records, slots), field, value)
    {
      out := found;
      for i := 0 to |slots|
        invariant out == found + Tag(IndicatorsAt(records, slots[..i]), field, value)
      {
        if slots[i] < |records| && records[slots[i]].active {
          out := out + [MatchResult(records[slots[i]].indicator, field, value)];
        }
        assert IndicatorsAt(records, slots[..i + 1]) == IndicatorsAt(records, slots[..i]) + [records[slots[i]].indicator];
      }
      assert slots[..|slots|] == slots;
    }

    /** Every active address indicator containing `ip`, widest range first and oldest first within one length. */
    method LookupIp(ip: U32, field: string) returns (out: seq<MatchResult>)
      requires Valid()
      ensures out == IpAnswer(Active(records), ip, field)
    {
      hide Batch, Active, BucketOf, IndicatorKey, Run, Contains, Bits, IpHitsFrom, SlotsOf, IndicatorsAt, Tag, Collect, Below, Linked, Pow2;
      WalkReads(records, ip);
      if cidrTrie == [] {
        EmptyAnswer(ip, field);
        return [];
      }
      var value := Ipv4ToString(ip);
      ghost var bits := Bits(ip);
      ghost var all := Collect(cidrTrie, 0, bits);
      assert bits[0..] == bits;
      BelowStep(cidrTrie, 0, bits, 0);
      var node: int := 0;
      ghost var seen := cidrTrie[0].records;
      ghost var rest := Below(cidrTrie, 0, bits);
      PartReads(records, [], cidrTrie[0].records, all, field, value);
      out := AppendSlots(cidrTrie[0].records, field, value, []);
      var bit := 0;
      while bit < 32 && node >= 0
        invariant 0 <= bit <= 32 && node < |cidrTrie|
        invariant rest == if node < 0 then [] else Below(cidrTrie, node, bits[bit..])
        invariant all == seen + rest
        invariant SlotsOf(records, seen) && out == Tag(IndicatorsAt(records, seen), field, value)
      {
        BelowStep(cidrTrie, node, bits, bit);
        BitsAt(ip, bit);
        LinkInRange(cidrTrie, node, Bit(ip, bit));
        node := cidrTrie[node].Child(Bit(ip, bit));
        bit := bit + 1;
        if node >= 0 {
          var here := cidrTrie[node].records;
          rest := Below(cidrTrie, node, bits[bit..]);
          ConcatAssoc(seen, here, rest);
          PartReads(records, seen, here, all, field, value);
          out := AppendSlots(here, field, value, out);
          seen := seen + here;
        } else {
          rest := [];
        }
      }
      if node >= 0 { BelowStep(cidrTrie, node, bits, 32); }
      assert all == seen;
    }

    lemma EmptyAnswer(ip: U32, field: string)
      requires Valid() && cidrTrie == []
      ensures IpAnswer(Active(records), ip, field) == []
    {
      WalkReads(records, ip);
      assert Collect([EMPTY_NODE], 0, Bits(ip)) == [];
    }

    lemma DomainBuckets()
      requires Valid()
      ensures domains.Keys == DomainKeys(Active(records))
      ensures forall key :: key in domains ==>
                SlotsOf(records, domains[key]) && IndicatorsAt(records, domains[key]) == InBucket(Active(records), DomainKey(key))
    {
      hide Batch, Active, BucketOf, SlotsOf, IndicatorsAt;
      BatchDomainKeys(records);
      forall key | key in domains
        ensures SlotsOf(records, domains[key]) && IndicatorsAt(records, domains[key]) == InBucket(Active(records), DomainKey(key))
      {
        BatchMapBuckets(records, key);
        BucketReads(records, DomainKey(key));
      }
    }

    /** Visits the domain keys in map order, from the least up. */
    method LookupDomain(domain: string, field: string) returns (out: seq<MatchResult>)
      requires Valid()
      ensures out == DomainAnswer(Active(records), domain, field)
    {
      hide DomainMatches, NormalizeDomain, Active, SlotsOf, IndicatorsAt, InBucket, DomainKeys, SortedKeys, NameHits, Tag, IsLeast, Valid;
      var observed := NormalizeDomain(domain);
      ghost var inds := Active(records);
      DomainBuckets();
      out := [];
      var rest := domains.Keys;
      ghost var answer := DomainAnswer(inds, domain, field);
      assert [] + answer == answer;
      while rest != {}
        invariant rest <= domains.Keys
        invariant answer == out + Tag(NameHits(inds, SortedKeys(rest), observed), field, observed)
      {
        HasLeast(rest);
        var key :| IsLeast(rest, key);
        DomainStep(inds, rest, key, observed, field);
        ghost var tail := Tag(NameHits(inds, SortedKeys(rest - {key}), observed), field, observed);
        ghost var here := if DomainMatches(key, observed) then Tag(InBucket(inds, DomainKey(key)), field, observed) else [];
        assert answer == out + (here + tail);
        ConcatAssoc(out, here, tail);
        if DomainMatches(key, observed) {
          out := AppendSlots(domains[key], field, observed, out);
        }
        rest := rest - {key};
      }
      NoKeysLeft(inds, observed, field);
    }

    method LookupHash(hash: string, field: string) returns (out: seq<MatchResult>)
      requires Valid()
      ensures out == HashAnswer(Active(records), hash, field)
    {
      hide Batch, Active, BucketOf, SlotBucket, InBucket, IndicatorsAt, SlotsOf, NormalizeHash, Run, EverRooted, IndicatorKey, Tag;
      var normalized := NormalizeHash(hash);
      BatchMapBuckets(records, normalized);
      BucketReads(records, HashKey(normalized));
      if normalized !in hashes { return []; }
      out := AppendSlots(hashes[normalized], field, normalized, []);
    }

    method MatchPacket(md: Observed) returns (filtered: seq<MatchResult>)
      requires Valid()
      ensures filtered == PacketAnswer(Active(records), md)
    {
      hide DomainAnswer, IpAnswer, Suppress, Batch, Active, Run, Valid;
      ghost var inds := Active(records);
      var out: seq<MatchResult> := [];
      if md.ipv4.Some? {
        var src := LookupIp(md.ipv4.value.0, "ipv4.source");
        var dst := LookupIp(md.ipv4.value.1, "ipv4.destination");
        out := out + src + dst;
      }
      ghost var ipPart := out;
      for i := 0 to |md.names|
        invariant out == ipPart + AllDomainAnswers(inds, md.names[..i])
      {
        assert md.names[..i + 1][..i] == md.names[..i];
        var matches := LookupDomain(md.names[i], "dns.name");
        out := out + matches;
      }
      assert md.names[..|md.names|] == md.names;
      assert out == IndexHits(inds, md);
      filtered := SuppressLoop(out);
    }

    // ---- integrity ----

    ghost predicate Integrity()
      reads this
    {
      && (forall id :: id in idToSlot ==> idToSlot[id] < |records| && records[idToSlot[id]].id == id)
      && (forall key :: key in keyToSlot ==> keyToSlot[key] < |records| && records[keyToSlot[key]].active)
      && (forall i :: 0 <= i < |cidrTrie| ==> NodeIntegrity(cidrTrie[i]))
    }

    ghost predicate NodeIntegrity(n: TrieNode)
      reads this
    {
      n.zero < |cidrTrie| && n.one < |cidrTrie| && SlotsOf(records, n.records)
    }

    method ValidateIntegrity() returns (ok: bool)
      ensures ok <==> Integrity()
    {
      hide NodeIntegrity;
      ok := true;
      var ids := idToSlot.Keys;
      while ids != {}
        invariant ids <= idToSlot.Keys
        invariant ok <==> forall id :: id in idToSlot && id !in ids ==> idToSlot[id] < |records| && records[idToSlot[id]].id == id
      {
        var id :| id in ids;
        if idToSlot[id] >= |records| || records[idToSlot[id]].id != id { ok := false; }
        ids := ids - {id};
      }
      var keys := keyToSlot.Keys;
      ghost var idsOk := ok;
      while keys != {}
        invariant keys <= keyToSlot.Keys
        invariant ok <==> idsOk && forall key :: key in keyToSlot && key !in keys ==> keyToSlot[key] < |records| && records[keyToSlot[key]].active
      {
        var key :| key in keys;
        if keyToSlot[key] >= |records| || !records[keyToSlot[key]].active { ok := false; }
        keys := keys - {key};
      }
      ghost var mapsOk := ok;
      for i := 0 to |cidrTrie|
        invariant ok <==> mapsOk && forall j :: 0 <= j < i ==> NodeIntegrity(cidrTrie[j])
      {
        var good := ValidateNode(cidrTrie[i]);
        ok := ok && good;
      }
    }

    /** One node of the trie: its links, then its records. */
    method ValidateNode(n: TrieNode) returns (ok: bool)
      ensures ok <==> NodeIntegrity(n)
    {
      ok := true;
      if n.zero >= |cidrTrie| || n.one >= |cidrTrie| { ok := false; }
      ghost var linked := ok;
      for s := 0 to |n.records|
        invariant ok <==> linked && SlotsOf(records, n.records[..s])
      {
        if n.records[s] >= |records| || !records[n.records[s]].active { ok := false; }
      }
      assert n.records[..|n.records|] == n.records;
    }

    method Stats() returns (s: IndexStats)
      requires Valid()
      ensures s.total == |records| == s.active + s.inactive && s.active == |Active(records)|
      ensures s.cidrNodes == if EverRooted(history) then |NeededPaths(records)| else 0
      ensures s.domainKeys == |DomainKeys(Active(records))| && s.hashKeys == |HashKeys(Active(records))| && s.generation == generation
    {
      hide Batch, BucketOf, IndicatorKey, EverRooted, IdsOf, Run, NeededPaths, DomainKeys, HashKeys;
      var active, inactive := 0, 0;
      for i := 0 to |records|
        invariant active == |Active(records[..i])| && active + inactive == i
      {
        assert records[..i + 1][..i] == records[..i];
        if records[i].active { active := active + 1; } else { inactive := inactive + 1; }
      }
      assert records[..|records|] == records;
      TrieSize(records);
      BatchDomainKeys(records);
      BatchHashKeys(records);
      assert |domains| == |domains.Keys| && |hashes| == |hashes.Keys|;
      s := IndexStats(|records|, active, inactive, |cidrTrie|, |domains|, |hashes|, generation);
    }

    /** The integrity check succeeds in every reachable state. */
    lemma ValidHasIntegrity()
      requires Valid()
      ensures Integrity()
    {
      hide Batch, NodeOk;
      BatchTrieShape(records);
      var t, paths := Batch(records).trie, BatchPaths(records);
      forall i | 0 <= i < |cidrTrie| ensures NodeIntegrity(cidrTrie[i]) {
        RecordsAtNode(t, paths, i);
        BatchTrieBuckets(records, paths[i]);
        SlotBucketMembers(records, IpPath(paths[i]));
      }
      forall key | key in keyToSlot ensures keyToSlot[key] < |records| && records[keyToSlot[key]].active {
        BatchKeys(records, key);
      }
    }
  }

  lemma TrieSize(rs: seq<IndexedIndicator>)
    ensures |Batch(rs).trie| == |NeededPaths(rs)|
  {
    hide *;
    TrieNodeCount(rs);
  }

  lemma DistinctIds(c: Core)
    requires Sound(c)
    ensures forall i, j :: 0 <= i < j < |c.records| ==> c.records[i].id != c.records[j].id
  {}

  lemma StepCompacts(c: Core)
    ensures Step(c, Op.Compact) == Core(c.nextId, c.generation + 1, Compacted(c.records))
  {}

  lemma EmptyBatch()
    ensures Batch([]) == EMPTY_INDEXES
  {}

  lemma BatchSnoc(rs: seq<IndexedIndicator>, r: IndexedIndicator)
    ensures Batch(rs + [r]) == IndexNext(Batch(rs), |rs|, r)
  {
    hide IndexNext, Linked;
    assert (rs + [r])[..|rs|] == rs;
  }

  lemma BatchSnocActive(rs: seq<IndexedIndicator>, r: IndexedIndicator)
    requires r.active
    ensures var ix := Batch(rs);
            Batch(rs + [r]) == IndexSpec.IndexRecord(ix.(keys := ix.keys[IndicatorKey(r.indicator) := |rs|]), |rs|, r.indicator)
  {
    BatchSnoc(rs, r);
  }

  lemma ActiveSnoc(rs: seq<IndexedIndicator>, r: IndexedIndicator)
    ensures Active(rs + [r]) == Active(rs) + (if r.active then [r.indicator] else [])
  {
    assert (rs + [r])[..|rs|] == rs;
  }

  function Adds(inds: seq<Indicator>): seq<Op> {
    seq(|inds|, i requires 0 <= i < |inds| => Op.Add(inds[i]))
  }

  function AllPrepared(inds: seq<Indicator>): seq<Indicator> {
    seq(|inds|, i requires 0 <= i < |inds| => Prepared(inds[i]))
  }

  lemma NothingAdded()
    ensures Adds([]) == [] && AllPrepared([]) == []
  {}

  lemma AddsSnoc(inds: seq<Indicator>, i: nat)
    requires i < |inds|
    ensures Adds(inds[..i + 1]) == Adds(inds[..i]) + [Op.Add(inds[i])]
    ensures AllPrepared(inds[..i + 1]) == AllPrepared(inds[..i]) + [Prepared(inds[i])]
  {}

  lemma PartReads(rs: seq<IndexedIndicator>, seen: seq<nat>, here: seq<nat>, all: seq<nat>, field: string, value: string)
    requires seen + here <= all && SlotsOf(rs, all)
    ensures SlotsOf(rs, seen) && SlotsOf(rs, here) && SlotsOf(rs, seen + here)
    ensures Tag(IndicatorsAt(rs, seen + here), field, value) == Tag(IndicatorsAt(rs, seen), field, value) + Tag(IndicatorsAt(rs, here), field, value)
    ensures seen == [] ==> Tag(IndicatorsAt(rs, seen), field, value) == []
  {
    forall i | 0 <= i < |here| ensures here[i] < |rs| && rs[here[i]].active {
      assert here[i] == (seen + here)[|seen| + i] == all[|seen| + i];
    }
    forall i | 0 <= i < |seen| ensures seen[i] < |rs| && rs[seen[i]].active {
      assert seen[i] == (seen + here)[i] == all[i];
    }
  }

  lemma BitsAt(ip: U32, k: nat)
    requires k < 32
    ensures Bits(ip)[k] == Bit(ip, k)
  {}

  lemma LinkInRange(t: seq<TrieNode>, node: nat, branch: bool)
    requires Linked(t) && node < |t|
    ensures t[node].Child(branch) < |t|
  {}

  lemma DomainStep(inds: seq<Indicator>, rest: set<string>, key: string, observed: string, field: string)
    requires IsLeast(rest, key)
    ensures key in rest
    ensures Tag(NameHits(inds, SortedKeys(rest), observed), field, observed) ==
            (if DomainMatches(key, observed) then Tag(InBucket(inds, DomainKey(key)), field, observed) else [])
            + Tag(NameHits(inds, SortedKeys(rest - {key}), observed), field, observed)
  {
    hide DomainMatches, InBucket, Less, IsLeast, NameHits, Tag, DomainKeys;
    assert key in rest by { LeastIsMember(rest, key); }
    LeastUnique(rest, key, Least(rest));
    var tail := SortedKeys(rest - {key});
    assert SortedKeys(rest) == [key] + tail;
    NameHitsCons(inds, key, tail, observed);
    TagConcat(if DomainMatches(key, observed) then InBucket(inds, DomainKey(key)) else [], NameHits(inds, tail, observed), field, observed);
  }

  lemma NameHitsCons(inds: seq<Indicator>, key: string, tail: seq<string>, observed: string)
    ensures NameHits(inds, [key] + tail, observed) ==
            (if DomainMatches(key, observed) then InBucket(inds, DomainKey(key)) else []) + NameHits(inds, tail, observed)
  {
    hide DomainMatches, InBucket;
    assert ([key] + tail)[1..] == tail;
  }

  lemma TagConcat(a: seq<Indicator>, b: seq<Indicator>, field: string, value: string)
    ensures Tag(a + b, field, value) == Tag(a, field, value) + Tag(b, field, value)
    ensures Tag([], field, value) == []
  {}

  lemma LeastIsMember(rest: set<string>, key: string)
    requires IsLeast(rest, key)
    ensures key in rest
  {}

  lemma NoKeysLeft(inds: seq<Indicator>, observed: string, field: string)
    ensures Tag(NameHits(inds, SortedKeys({}), observed), field, observed) == []
  {}
}
