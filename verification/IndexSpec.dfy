/**
 * What the stateful index means: its record list, the batch construction of its
 * derived structures, and the answers it owes as functions of the active indicators.
 */
module IndexSpec {
  import opened Collections
  import opened Text
  import opened Ipv4
  import opened Indicators
  import opened Trie

  datatype IndexedIndicator = IndexedIndicator(id: nat, generation: nat, active: bool, indicator: Indicator)

  /** The derived structures: key map, domain map, hash map and trie. */
  datatype Indexes = Indexes(keys: map<string, nat>, domains: map<string, seq<nat>>, hashes: map<string, seq<nat>>, trie: seq<TrieNode>)

  /** The one place where an active indicator is filed. */
  datatype Bucket = IpPath(path: Path) | DomainKey(name: string) | HashKey(hash: string) | NoBucket

  function RangeOf(i: Indicator): (r: Option<CidrRange>)
    ensures r.Some? ==> r.value.prefix <= 32
  {
    if i.cidr.Some? then i.cidr else if i.ip.Some? then Some(CidrRange(i.ip.value, 32)) else None
  }

  function BucketOf(i: Indicator): Bucket {
    if i.kind == Domain || i.kind == Url then DomainKey(NormalizeDomain(HostOf(i)))
    else if i.kind == Hash then HashKey(NormalizeHash(i.normalized))
    else if (i.kind == Ip || i.kind == Cidr) && RangeOf(i).Some? then IpPath(PathOf(RangeOf(i).value))
    else NoBucket
  }

  /** The abstraction of the whole index: its active indicators, oldest slot first. */
  function Active(rs: seq<IndexedIndicator>): seq<Indicator> {
    if rs == [] then [] else
      Active(rs[..|rs| - 1]) + (if rs[|rs| - 1].active then [rs[|rs| - 1].indicator] else [])
  }

  predicate Files(r: IndexedIndicator, b: Bucket) { r.active && BucketOf(r.indicator) == b }

  function SlotBucket(rs: seq<IndexedIndicator>, b: Bucket): seq<nat> {
    if rs == [] then [] else
      SlotBucket(rs[..|rs| - 1], b) + (if Files(rs[|rs| - 1], b) then [|rs| - 1] else [])
  }

  function InBucket(inds: seq<Indicator>, b: Bucket): seq<Indicator> {
    if inds == [] then [] else
      InBucket(inds[..|inds| - 1], b) + (if BucketOf(inds[|inds| - 1]) == b then [inds[|inds| - 1]] else [])
  }

  predicate SlotsOf(rs: seq<IndexedIndicator>, slots: seq<nat>) {
    forall i :: 0 <= i < |slots| ==> slots[i] < |rs| && rs[slots[i]].active
  }

  function IndicatorsAt(rs: seq<IndexedIndicator>, slots: seq<nat>): (r: seq<Indicator>)
    requires SlotsOf(rs, slots)
    ensures |r| == |slots| && forall i :: 0 <= i < |r| ==> r[i] == rs[slots[i]].indicator
  {
    seq(|slots|, i requires 0 <= i < |slots| => rs[slots[i]].indicator)
  }

  /** The newest active slot with this key. */
  function LastActive(rs: seq<IndexedIndicator>, key: string): (r: Option<nat>)
    ensures r.Some? ==> r.value < |rs| && rs[r.value].active && IndicatorKey(rs[r.value].indicator) == key
  {
    if rs == [] then None
    else if rs[|rs| - 1].active && IndicatorKey(rs[|rs| - 1].indicator) == key then Some(|rs| - 1)
    else LastActive(rs[..|rs| - 1], key)
  }

  /** No later record, and without a result no record at all, is active under the key. */
  lemma {:induction false} LastActiveIsNewest(rs: seq<IndexedIndicator>, key: string, i: nat)
    requires i < |rs| && rs[i].active && IndicatorKey(rs[i].indicator) == key
    ensures LastActive(rs, key).Some? && i <= LastActive(rs, key).value
  {
    hide IndicatorKey;
    if i < |rs| - 1 { LastActiveIsNewest(rs[..|rs| - 1], key, i); }
  }

  // ---- batch construction, one record at a time ----

  /** Files one active record, as `index_record` does. */
  function IndexRecord(ix: Indexes, slot: nat, i: Indicator): (r: Indexes)
    requires Linked(ix.trie)
    ensures Linked(r.trie)
  {
    match BucketOf(i)
    case DomainKey(name) => ix.(domains := Push(ix.domains, name, slot))
    case HashKey(hash) => ix.(hashes := Push(ix.hashes, hash, slot))
    case IpPath(path) => ix.(trie := Insert(ix.trie, 0, path, slot))
    case NoBucket => ix
  }

  const EMPTY_INDEXES := Indexes(map[], map[], map[], [EMPTY_NODE])

  function IndexNext(ix: Indexes, slot: nat, r: IndexedIndicator): (r': Indexes)
    requires Linked(ix.trie)
    ensures Linked(r'.trie)
  {
    if !r.active then ix
    else IndexRecord(ix.(keys := ix.keys[IndicatorKey(r.indicator) := slot]), slot, r.indicator)
  }

  /** What a rebuild produces from the records alone. */
  function Batch(rs: seq<IndexedIndicator>): (ix: Indexes)
    ensures Linked(ix.trie)
  {
    if rs == [] then EMPTY_INDEXES else IndexNext(Batch(rs[..|rs| - 1]), |rs| - 1, rs[|rs| - 1])
  }

  /** The bit paths of the trie nodes, in the order the nodes are made. */
  ghost function BatchPaths(rs: seq<IndexedIndicator>): (paths: seq<Path>)
    ensures paths != [] && paths[0] == []
  {
    if rs == [] then [[]] else
      var before := BatchPaths(rs[..|rs| - 1]);
      var last := rs[|rs| - 1];
      if last.active && BucketOf(last.indicator).IpPath? then AddPaths(before, [], BucketOf(last.indicator).path) else before
  }

  lemma {:induction false} BatchTrieShape(rs: seq<IndexedIndicator>)
    ensures Represents(Batch(rs).trie, BatchPaths(rs))
  {
    hide BucketOf, Insert, AddPaths, IndicatorKey;
    if rs == [] {
      forall i, b: bool | 0 <= i < 1 ensures NodeOk([EMPTY_NODE], [[]], i, b) {
        assert ([] + [b]) != [];
      }
    } else {
      var init, last := rs[..|rs| - 1], rs[|rs| - 1];
      BatchTrieShape(init);
      if Files(last, BucketOf(last.indicator)) && BucketOf(last.indicator).IpPath? {
        InsertRepresents(Batch(init).trie, BatchPaths(init), 0, BucketOf(last.indicator).path, |rs| - 1);
      }
    }
  }

  /** The trie's bucket at each path is the ascending list of the active slots with that range. */
  lemma {:induction false} BatchTrieBuckets(rs: seq<IndexedIndicator>, path: Path)
    ensures RecordsAt(Batch(rs).trie, path) == SlotBucket(rs, IpPath(path))
  {
    hide BucketOf, Insert, AddPaths, IndicatorKey, Represents;
    if rs == [] {
      assert RecordsAt([EMPTY_NODE], path) == [];
    } else {
      var init, last := rs[..|rs| - 1], rs[|rs| - 1];
      BatchTrieBuckets(init, path);
      BatchTrieShape(init);
      if last.active && BucketOf(last.indicator).IpPath? {
        InsertFiles(Batch(init).trie, BatchPaths(init), BucketOf(last.indicator).path, |rs| - 1, path);
      }
    }
  }

  predicate MapBucket(m: map<string, seq<nat>>, key: string, slots: seq<nat>) {
    (key in m <==> slots != []) && (key in m ==> m[key] == slots)
  }

  /** The domain and hash maps hold exactly the non-empty buckets, slots ascending. */
  lemma {:induction false} BatchMapBuckets(rs: seq<IndexedIndicator>, key: string)
    ensures MapBucket(Batch(rs).domains, key, SlotBucket(rs, DomainKey(key)))
    ensures MapBucket(Batch(rs).hashes, key, SlotBucket(rs, HashKey(key)))
  {
    hide BucketOf, Insert, IndicatorKey, Linked, MapBucket, Push, IndexNext;
    if rs == [] {
      NoMapBucket(key);
    } else {
      var init, last := rs[..|rs| - 1], rs[|rs| - 1];
      BatchMapBuckets(init, key);
      var ix := Batch(init);
      PushBucket(ix.domains, key, SlotBucket(init, DomainKey(key)), |rs| - 1);
      PushBucket(ix.hashes, key, SlotBucket(init, HashKey(key)), |rs| - 1);
      IndexNextMaps(ix, |rs| - 1, last);
      SlotBucketStep(rs, DomainKey(key));
      SlotBucketStep(rs, HashKey(key));
    }
  }

  lemma NoMapBucket(key: string)
    ensures MapBucket(map[], key, [])
  {}

  lemma IndexNextMaps(ix: Indexes, slot: nat, r: IndexedIndicator)
    requires Linked(ix.trie)
    ensures var b := BucketOf(r.indicator);
            && IndexNext(ix, slot, r).domains == (if r.active && b.DomainKey? then Push(ix.domains, b.name, slot) else ix.domains)
            && IndexNext(ix, slot, r).hashes == (if r.active && b.HashKey? then Push(ix.hashes, b.hash, slot) else ix.hashes)
  {
    hide BucketOf, Insert, IndicatorKey, Linked, Push;
  }

  lemma PushBucket(m: map<string, seq<nat>>, key: string, slots: seq<nat>, slot: nat)
    requires MapBucket(m, key, slots)
    ensures MapBucket(Push(m, key, slot), key, slots + [slot])
    ensures forall other :: other != key ==> MapBucket(Push(m, other, slot), key, slots)
  {}

  /** The key map sends each key of an active record to its newest slot, and holds no other key. */
  lemma {:induction false} BatchKeys(rs: seq<IndexedIndicator>, key: string)
    ensures key in Batch(rs).keys <==> LastActive(rs, key).Some?
    ensures key in Batch(rs).keys ==> LastActive(rs, key) == Some(Batch(rs).keys[key])
  {
    hide BucketOf, Insert, IndicatorKey, IndexNext, Linked;
    if rs != [] {
      BatchKeys(rs[..|rs| - 1], key);
      IndexNextKeys(Batch(rs[..|rs| - 1]), |rs| - 1, rs[|rs| - 1]);
    }
  }

  lemma IndexNextKeys(ix: Indexes, slot: nat, r: IndexedIndicator)
    requires Linked(ix.trie)
    ensures IndexNext(ix, slot, r).keys == if r.active then ix.keys[IndicatorKey(r.indicator) := slot] else ix.keys
  {
    hide BucketOf, Insert, IndicatorKey, Linked;
  }

  lemma SlotBucketStep(rs: seq<IndexedIndicator>, b: Bucket)
    requires rs != []
    ensures var before := SlotBucket(rs[..|rs| - 1], b);
            SlotBucket(rs, b) == if Files(rs[|rs| - 1], b) then before + [|rs| - 1] else before
  {
    hide BucketOf;
  }

  lemma FilesActive(r: IndexedIndicator, b: Bucket)
    requires Files(r, b)
    ensures r.active
  {
    hide BucketOf;
  }

  lemma {:induction false} SlotBucketHolds(rs: seq<IndexedIndicator>, b: Bucket, s: nat)
    ensures s in SlotBucket(rs, b) <==> s < |rs| && Files(rs[s], b)
  {
    hide SlotBucket, Files;
    if rs == [] {
      EmptyBucket(b);
    } else {
      var init := rs[..|rs| - 1];
      SlotBucketHolds(init, b, s);
      SlotBucketStep(rs, b);
      if s < |rs| - 1 { assert rs[s] == init[s]; }
    }
  }

  lemma EmptyBucket(b: Bucket)
    ensures SlotBucket([], b) == []
  {}

  lemma {:induction false} SlotBucketAscends(rs: seq<IndexedIndicator>, b: Bucket)
    ensures forall i, j :: 0 <= i < j < |SlotBucket(rs, b)| ==> SlotBucket(rs, b)[i] < SlotBucket(rs, b)[j]
  {
    hide SlotBucket, Files;
    if rs == [] {
      EmptyBucket(b);
    } else {
      var init := rs[..|rs| - 1];
      SlotBucketAscends(init, b);
      SlotBucketStep(rs, b);
      var before := SlotBucket(init, b);
      forall i | 0 <= i < |before| ensures before[i] < |rs| - 1 {
        assert before[i] in before;
        SlotBucketHolds(init, b, before[i]);
      }
    }
  }

  lemma SlotBucketMembers(rs: seq<IndexedIndicator>, b: Bucket)
    ensures SlotsOf(rs, SlotBucket(rs, b))
    ensures forall s: nat :: s in SlotBucket(rs, b) <==> s < |rs| && Files(rs[s], b)
    ensures forall i, j :: 0 <= i < j < |SlotBucket(rs, b)| ==> SlotBucket(rs, b)[i] < SlotBucket(rs, b)[j]
  {
    hide SlotBucket, Files;
    forall s: nat ensures s in SlotBucket(rs, b) <==> s < |rs| && Files(rs[s], b) { SlotBucketHolds(rs, b, s); }
    SlotBucketAscends(rs, b);
    var slots := SlotBucket(rs, b);
    forall i | 0 <= i < |slots| ensures slots[i] < |rs| && rs[slots[i]].active {
      assert slots[i] in slots;
      FilesActive(rs[slots[i]], b);
    }
  }

  lemma InBucketSnoc(inds: seq<Indicator>, i: Indicator, b: Bucket)
    ensures InBucket(inds + [i], b) == InBucket(inds, b) + (if BucketOf(i) == b then [i] else [])
  {
    assert (inds + [i])[..|inds|] == inds;
  }

  lemma ReadsOfInit(rs: seq<IndexedIndicator>, slots: seq<nat>)
    requires rs != [] && SlotsOf(rs[..|rs| - 1], slots)
    ensures SlotsOf(rs, slots)
    ensures IndicatorsAt(rs, slots) == IndicatorsAt(rs[..|rs| - 1], slots)
  {}

  lemma ReadsSnoc(rs: seq<IndexedIndicator>, slots: seq<nat>, slot: nat)
    requires SlotsOf(rs, slots) && slot < |rs| && rs[slot].active
    ensures SlotsOf(rs, slots + [slot])
    ensures IndicatorsAt(rs, slots + [slot]) == IndicatorsAt(rs, slots) + [rs[slot].indicator]
  {}

  /** Slot numbers drop out: a bucket of slots reads as the bucket of the active indicators. */
  lemma {:induction false} BucketReads(rs: seq<IndexedIndicator>, b: Bucket)
    ensures SlotsOf(rs, SlotBucket(rs, b))
    ensures IndicatorsAt(rs, SlotBucket(rs, b)) == InBucket(Active(rs), b)
  {
    hide BucketOf, IndicatorsAt, InBucket, SlotsOf;
    if rs == [] {
      EmptyReads(rs, b);
    } else {
      var init, last := rs[..|rs| - 1], rs[|rs| - 1];
      BucketReads(init, b);
      ReadsOfInit(rs, SlotBucket(init, b));
      if last.active { InBucketSnoc(Active(init), last.indicator, b); } else { assert Active(rs) == Active(init); }
      if Files(last, b) {
        ReadsSnoc(rs, SlotBucket(init, b), |rs| - 1);
      } else {
        assert SlotBucket(rs, b) == SlotBucket(init, b);
        assert last.active ==> InBucket(Active(rs), b) == InBucket(Active(init), b) + [];
      }
    }
  }

  lemma EmptyReads(rs: seq<IndexedIndicator>, b: Bucket)
    ensures SlotsOf(rs, []) && IndicatorsAt(rs, []) == InBucket([], b)
  {}

  // ---- trie size ----

  /** Every prefix of the range of some active address indicator, and the root. */
  ghost predicate NeededPath(rs: seq<IndexedIndicator>, p: Path) {
    p == [] || exists s :: 0 <= s < |rs| && NeedsPath(rs[s], p)
  }

  ghost predicate NeedsPath(r: IndexedIndicator, p: Path) {
    r.active && BucketOf(r.indicator).IpPath? && p <= BucketOf(r.indicator).path
  }

  /** Those paths as a set (TrieNodeCount). */
  ghost function NeededPaths(rs: seq<IndexedIndicator>): set<Path> { set p | p in BatchPaths(rs) }

  lemma {:induction false} BatchPathsNeeded(rs: seq<IndexedIndicator>, p: Path)
    ensures p in BatchPaths(rs) <==> NeededPath(rs, p)
  {
    hide BucketOf, AddPaths;
    if rs != [] {
      var init, last := rs[..|rs| - 1], rs[|rs| - 1];
      BatchPathsNeeded(init, p);
      NeededSnoc(rs, p);
      if last.active && BucketOf(last.indicator).IpPath? {
        var path := BucketOf(last.indicator).path;
        AddPathsMembers(BatchPaths(init), [], path, p);
        if p != [] && p <= path { assert p == [] + path[..|p|]; }
        if k :| 0 < k <= |path| && p == [] + path[..k] { assert p <= path; }
      }
    }
  }

  lemma NeededSnoc(rs: seq<IndexedIndicator>, p: Path)
    requires rs != []
    ensures NeededPath(rs, p) <==> NeededPath(rs[..|rs| - 1], p) || NeedsPath(rs[|rs| - 1], p)
  {
    hide NeedsPath;
    var init := rs[..|rs| - 1];
    if NeedsPath(rs[|rs| - 1], p) { assert NeededPath(rs, p); }
    if p != [] {
      if s :| 0 <= s < |init| && NeedsPath(init[s], p) { assert NeedsPath(rs[s], p); }
      if s :| 0 <= s < |rs| && NeedsPath(rs[s], p) && s < |init| { assert NeedsPath(init[s], p); }
    }
  }

  function PrefixSum(rs: seq<IndexedIndicator>): nat {
    if rs == [] then 0 else
      PrefixSum(rs[..|rs| - 1]) +
      (var last := rs[|rs| - 1]; if last.active && BucketOf(last.indicator).IpPath? then |BucketOf(last.indicator).path| else 0)
  }

  lemma {:induction false} BatchPathsBound(rs: seq<IndexedIndicator>)
    ensures |BatchPaths(rs)| <= 1 + PrefixSum(rs)
    ensures forall i :: 0 <= i < |BatchPaths(rs)| ==> |BatchPaths(rs)[i]| <= 32
  {
    if rs != [] { BatchPathsBound(rs[..|rs| - 1]); }
    forall i | 0 <= i < |BatchPaths(rs)| ensures |BatchPaths(rs)[i]| <= 32 {
      BatchPathsNeeded(rs, BatchPaths(rs)[i]);
    }
  }

  /**
   * One node for each distinct bit prefix of an active range (and the root),
   * each reached by exactly one path, of at most 32 bits; links lead forward.
   */
  lemma TrieNodeCount(rs: seq<IndexedIndicator>)
    ensures Represents(Batch(rs).trie, BatchPaths(rs))
    ensures forall p :: p in NeededPaths(rs) <==> NeededPath(rs, p)
    ensures |Batch(rs).trie| == |NeededPaths(rs)| <= 1 + PrefixSum(rs)
    ensures forall i, p :: 0 <= i < |Batch(rs).trie| ==> (Walk(Batch(rs).trie, 0, p) == i <==> p == BatchPaths(rs)[i])
    ensures forall i :: 0 <= i < |BatchPaths(rs)| ==> |BatchPaths(rs)[i]| <= 32
  {
    hide NodeOk, NeededPath, Walk, BucketOf;
    BatchTrieShape(rs);
    BatchPathsBound(rs);
    DistinctCount(BatchPaths(rs));
    forall p ensures p in NeededPaths(rs) <==> NeededPath(rs, p) { BatchPathsNeeded(rs, p); }
    forall i, p | 0 <= i < |Batch(rs).trie| ensures Walk(Batch(rs).trie, 0, p) == i <==> p == BatchPaths(rs)[i] {
      OnePathPerNode(Batch(rs).trie, BatchPaths(rs), i, p);
    }
  }

  // ---- the answers owed, as functions of the active indicators ----

  /** The index's test for one address indicator. */
  predicate IndexHitsIp(i: Indicator, ip: U32) {
    (i.kind == Ip || i.kind == Cidr) && RangeOf(i).Some? && Contains(RangeOf(i).value, ip)
  }

  /** The indicators whose range fixes `k` bits and contains the address, in list order. */
  function CoveringOfLength(inds: seq<Indicator>, ip: U32, k: nat): seq<Indicator> {
    if inds == [] then [] else
      var last := inds[|inds| - 1];
      CoveringOfLength(inds[..|inds| - 1], ip, k) + (if IndexHitsIp(last, ip) && RangeOf(last).value.prefix == k then [last] else [])
  }

  /** Widest ranges first, list order within one length: the linear scan stably sorted by prefix. */
  function IpHitsFrom(inds: seq<Indicator>, ip: U32, k: nat): seq<Indicator>
    requires k <= 33
    decreases 33 - k
  {
    if k == 33 then [] else CoveringOfLength(inds, ip, k) + IpHitsFrom(inds, ip, k + 1)
  }

  lemma {:induction false} CoveringIsBucket(inds: seq<Indicator>, ip: U32, k: nat)
    requires k <= 32
    ensures CoveringOfLength(inds, ip, k) == InBucket(inds, IpPath(Bits(ip)[..k]))
  {
    hide Contains, PathOf, NormalizeDomain, NormalizeHash, HostOf;
    if inds != [] {
      CoveringIsBucket(inds[..|inds| - 1], ip, k);
      var last := inds[|inds| - 1];
      if RangeOf(last).Some? { ContainsIsPrefixMatch(RangeOf(last).value, ip); }
    }
  }

  function Tag(inds: seq<Indicator>, field: string, value: string): (r: seq<MatchResult>)
    ensures |r| == |inds| && forall i :: 0 <= i < |r| ==> r[i] == MatchResult(inds[i], field, value)
  {
    seq(|inds|, i requires 0 <= i < |inds| => MatchResult(inds[i], field, value))
  }

  function IpAnswer(inds: seq<Indicator>, ip: U32, field: string): seq<MatchResult> {
    Tag(IpHitsFrom(inds, ip, 0), field, Ipv4ToString(ip))
  }

  /** Collecting bucket by bucket along the address gives the sorted scan. */
  lemma {:induction false} BucketsRead(rs: seq<IndexedIndicator>, ip: U32, k: nat)
    requires k <= 33
    ensures SlotsOf(rs, BucketsFrom(Batch(rs).trie, Bits(ip), k))
    ensures IndicatorsAt(rs, BucketsFrom(Batch(rs).trie, Bits(ip), k)) == IpHitsFrom(Active(rs), ip, k)
    decreases 33 - k
  {
    hide RecordsAt, CoveringOfLength, InBucket, SlotBucket, Batch, Active;
    if k <= 32 {
      var path := Bits(ip)[..k];
      BatchTrieBuckets(rs, path);
      BucketReads(rs, IpPath(path));
      CoveringIsBucket(Active(rs), ip, k);
      BucketsRead(rs, ip, k + 1);
      ReadsConcat(rs, SlotBucket(rs, IpPath(path)), BucketsFrom(Batch(rs).trie, Bits(ip), k + 1));
    }
  }

  lemma ReadsConcat(rs: seq<IndexedIndicator>, a: seq<nat>, b: seq<nat>)
    requires SlotsOf(rs, a) && SlotsOf(rs, b)
    ensures SlotsOf(rs, a + b)
    ensures IndicatorsAt(rs, a + b) == IndicatorsAt(rs, a) + IndicatorsAt(rs, b)
  {}

  /** The trie walk of a lookup lists exactly the sorted scan. */
  lemma WalkReads(rs: seq<IndexedIndicator>, ip: U32)
    ensures SlotsOf(rs, Collect(Batch(rs).trie, 0, Bits(ip)))
    ensures IndicatorsAt(rs, Collect(Batch(rs).trie, 0, Bits(ip))) == IpHitsFrom(Active(rs), ip, 0)
  {
    hide NodeOk, Batch, BatchPaths, Collect, BucketsFrom;
    BatchTrieShape(rs);
    assert Bits(ip)[0..] == Bits(ip) && Bits(ip)[..0] == [];
    CollectIsBuckets(Batch(rs).trie, BatchPaths(rs), 0, Bits(ip), 0);
    BucketsRead(rs, ip, 0);
  }

  // ---- domain keys, in map order ----

  predicate IsLeast(keys: set<string>, k: string) { k in keys && forall j :: j in keys && j != k ==> Less(k, j) }

  lemma {:induction false} LeastExists(keys: set<string>) returns (k: string)
    requires keys != {}
    ensures IsLeast(keys, k)
  {
    var x :| x in keys;
    var rest := keys - {x};
    assert forall j :: j in keys && j != x ==> j in rest;
    if rest == {} {
      k := x;
    } else {
      var m := LeastExists(rest);
      LessTotal(m, x);
      k := if Less(x, m) then x else m;
      forall j | j in keys && j != k ensures Less(k, j) {
        if j != m && j != x {
          assert j in rest && Less(m, j);
          if k == x { LessTransitive(x, m, j); }
        }
      }
    }
  }

  lemma HasLeast(keys: set<string>)
    requires keys != {}
    ensures exists k :: IsLeast(keys, k)
  {
    var k := LeastExists(keys);
  }

  lemma LeastUnique(keys: set<string>, a: string, b: string)
    requires IsLeast(keys, a) && IsLeast(keys, b)
    ensures a == b
  {
    if a != b { LessTotal(a, b); }
  }

  ghost function Least(keys: set<string>): (k: string)
    requires keys != {}
    ensures IsLeast(keys, k)
  {
    HasLeast(keys);
    var k :| IsLeast(keys, k);
    k
  }

  /** Map iteration order: the keys from least to greatest. */
  ghost function SortedKeys(keys: set<string>): (r: seq<string>)
    ensures Distinct(r) && forall k :: k in r <==> k in keys
  {
    if keys == {} then [] else
      var k := Least(keys);
      var rest := SortedKeys(keys - {k});
      assert forall i :: 0 <= i < |rest| ==> rest[i] in rest;
      [k] + rest
  }

  /** Every key comes before the greater ones. */
  lemma {:induction false} SortedKeysRise(keys: set<string>)
    ensures forall i, j :: 0 <= i < j < |SortedKeys(keys)| ==> Less(SortedKeys(keys)[i], SortedKeys(keys)[j])
  {
    hide Less;
    if keys != {} {
      var k := Least(keys);
      SortedKeysRise(keys - {k});
      var rest := SortedKeys(keys - {k});
      forall j | 0 <= j < |rest| ensures Less(k, rest[j]) { assert rest[j] in rest; }
    }
  }

  function DomainKeys(inds: seq<Indicator>): set<string> {
    set i | i in inds && BucketOf(i).DomainKey? :: BucketOf(i).name
  }

  function HashKeys(inds: seq<Indicator>): set<string> {
    set i | i in inds && BucketOf(i).HashKey? :: BucketOf(i).hash
  }

  /** The matching buckets of a key list, one after the other. */
  function NameHits(inds: seq<Indicator>, keys: seq<string>, observed: string): seq<Indicator> {
    if keys == [] then [] else
      (if DomainMatches(keys[0], observed) then InBucket(inds, DomainKey(keys[0])) else []) + NameHits(inds, keys[1..], observed)
  }

  ghost function DomainAnswer(inds: seq<Indicator>, name: string, field: string): seq<MatchResult> {
    var observed := NormalizeDomain(name);
    Tag(NameHits(inds, SortedKeys(DomainKeys(inds)), observed), field, observed)
  }

  function HashAnswer(inds: seq<Indicator>, hash: string, field: string): seq<MatchResult> {
    Tag(InBucket(inds, HashKey(NormalizeHash(hash))), field, NormalizeHash(hash))
  }

  ghost function AllDomainAnswers(inds: seq<Indicator>, names: seq<string>): seq<MatchResult> {
    if names == [] then [] else
      AllDomainAnswers(inds, names[..|names| - 1]) + DomainAnswer(inds, names[|names| - 1], "dns.name")
  }

  ghost function IndexHits(inds: seq<Indicator>, md: Observed): seq<MatchResult> {
    (if md.ipv4.None? then [] else
       IpAnswer(inds, md.ipv4.value.0, "ipv4.source") + IpAnswer(inds, md.ipv4.value.1, "ipv4.destination"))
    + AllDomainAnswers(inds, md.names)
  }

  ghost function PacketAnswer(inds: seq<Indicator>, md: Observed): seq<MatchResult> { Suppress(IndexHits(inds, md)) }

  /** Some active indicator has this key. */
  ghost predicate HasKey(inds: seq<Indicator>, key: string) { exists i :: i in inds && IndicatorKey(i) == key }

  lemma {:induction false} ActiveMembers(rs: seq<IndexedIndicator>, i: Indicator)
    ensures i in Active(rs) <==> exists s :: 0 <= s < |rs| && rs[s].active && rs[s].indicator == i
  {
    if rs != [] {
      var init := rs[..|rs| - 1];
      ActiveMembers(init, i);
      if s :| 0 <= s < |init| && init[s].active && init[s].indicator == i { assert rs[s].active; }
      if s :| 0 <= s < |rs| && rs[s].active && rs[s].indicator == i && s < |init| { assert init[s].active; }
    }
  }

  lemma KeyedIffHasKey(rs: seq<IndexedIndicator>, key: string)
    ensures LastActive(rs, key).Some? <==> HasKey(Active(rs), key)
  {
    hide IndicatorKey;
    if LastActive(rs, key).Some? { ActiveMembers(rs, rs[LastActive(rs, key).value].indicator); }
    if HasKey(Active(rs), key) {
      var i :| i in Active(rs) && IndicatorKey(i) == key;
      ActiveMembers(rs, i);
      var s :| 0 <= s < |rs| && rs[s].active && rs[s].indicator == i;
      LastActiveIsNewest(rs, key, s);
    }
  }

  /** The keys of the domain map are those of the active indicators. */
  lemma BatchDomainKeys(rs: seq<IndexedIndicator>)
    ensures Batch(rs).domains.Keys == DomainKeys(Active(rs))
  {
    hide BucketOf, Batch, SlotBucket, Active;
    forall k ensures k in Batch(rs).domains <==> k in DomainKeys(Active(rs)) {
      BatchMapBuckets(rs, k);
      SlotBucketMembers(rs, DomainKey(k));
      var slots := SlotBucket(rs, DomainKey(k));
      if slots != [] {
        assert slots[0] in slots;
        ActiveMembers(rs, rs[slots[0]].indicator);
      }
      if k in DomainKeys(Active(rs)) {
        var i :| i in Active(rs) && BucketOf(i) == DomainKey(k);
        ActiveMembers(rs, i);
        var s :| 0 <= s < |rs| && rs[s].active && rs[s].indicator == i;
        assert s in slots;
      }
    }
  }

  /** Likewise for the hash map. */
  lemma BatchHashKeys(rs: seq<IndexedIndicator>)
    ensures Batch(rs).hashes.Keys == HashKeys(Active(rs))
  {
    hide BucketOf, Batch, SlotBucket, Active;
    forall k ensures k in Batch(rs).hashes <==> k in HashKeys(Active(rs)) {
      BatchMapBuckets(rs, k);
      SlotBucketMembers(rs, HashKey(k));
      var slots := SlotBucket(rs, HashKey(k));
      if slots != [] {
        assert slots[0] in slots;
        ActiveMembers(rs, rs[slots[0]].indicator);
      }
      if k in HashKeys(Active(rs)) {
        var i :| i in Active(rs) && BucketOf(i) == HashKey(k);
        ActiveMembers(rs, i);
        var s :| 0 <= s < |rs| && rs[s].active && rs[s].indicator == i;
        assert s in slots;
      }
    }
  }
}
