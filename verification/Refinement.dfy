/** The index answers a packet with the same bag of results as the linear scan. */
module Refinement {
  import opened Collections
  import opened Text
  import opened Ipv4
  import opened Indicators
  import opened Trie
  import opened DomainNames
  import opened IndexSpec
  import opened IndexRuns

  /** The fields the two sides read agree: an address indicator carries one address, a range indicator its range. */
  predicate ConsistentIp(i: Indicator) {
    && (i.kind == Ip ==>
          if i.cidr.None? then true
          else i.ip.Some? && i.cidr.value.prefix == 32 && i.cidr.value.network == i.ip.value)
    && (i.kind == Cidr ==> i.cidr.Some? || i.ip.None?)
  }

  predicate NamedHost(i: Indicator) { i.kind == Domain || i.kind == Url }

  predicate ConsistentName(i: Indicator) { NamedHost(i) ==> Stable(HostOf(i)) }

  predicate Consistent(i: Indicator) { ConsistentIp(i) && ConsistentName(i) }

  /** Flipping the last bit keeps everything above it. */
  lemma FlipLastBit(n: nat, y: nat, half: nat)
    requires half > 0 && y == if n % 2 == 0 then n + 1 else n - 1
    ensures n - n % (2 * half) == y - y % (2 * half)
  {
    HalveFirst(n, half);
    HalveFirst(y, half);
    assert n / 2 == y / 2;
  }

  /** An address that agrees with `r` on its leading bits but is not `x`. */
  lemma AnotherAddress(r: CidrRange, x: U32) returns (y: U32)
    requires r.prefix < 32
    ensures Contains(r, y) && y != x
  {
    var n := r.network;
    if n != x {
      y := n;
    } else {
      y := if n % 2 == 0 then n + 1 else n - 1;
      FlipLastBit(n, y, Pow2(31 - r.prefix));
      SameMasked(n, y, r.prefix);
    }
  }

  lemma SameMasked(n: U32, y: U32, prefix: U8)
    requires prefix < 32 && n - n % (2 * Pow2(31 - prefix)) == y - y % (2 * Pow2(31 - prefix))
    ensures Masked(n, prefix) == Masked(y, prefix)
  {
    assert Pow2(32 - prefix) == 2 * Pow2(31 - prefix);
    hide Masked;
    MaskKeepsLeadingBits(n, prefix);
    MaskKeepsLeadingBits(y, prefix);
  }

  /** Scan and index agree on an indicator for every address exactly when its fields are consistent. */
  lemma IpAgreementIff(i: Indicator)
    ensures (forall ip: U32 :: IndexHitsIp(i, ip) == ScanHitsIp(i, ip)) <==> ConsistentIp(i)
  {
    hide Contains;
    if ConsistentIp(i) {
      forall ip: U32 ensures IndexHitsIp(i, ip) == ScanHitsIp(i, ip) {
        if RangeOf(i).Some? && i.kind == Ip { FullRangeIsEquality(i.ip.value, ip); }
      }
    } else if i.kind == Cidr {
      // the index falls back on the single address, which the scan of a range indicator ignores
      var x := i.ip.value;
      FullRangeIsEquality(x, x);
      assert IndexHitsIp(i, x) != ScanHitsIp(i, x);
    } else {
      var r := i.cidr.value;
      var x := if i.ip.Some? then i.ip.value else 0;
      if r.prefix < 32 {
        var y := AnotherAddress(r, x);
        assert IndexHitsIp(i, y) != ScanHitsIp(i, y);
      } else {
        FullRangeIsEquality(r.network, r.network);
        assert IndexHitsIp(i, r.network) != ScanHitsIp(i, r.network);
      }
    }
  }

  // ---- counting ----

  lemma {:induction false} TagCount(inds: seq<Indicator>, field: string, value: string, m: MatchResult)
    ensures multiset(Tag(inds, field, value))[m] ==
            if m.field == field && m.value == value then multiset(inds)[m.indicator] else 0
  {
    if inds != [] {
      var init, last := inds[..|inds| - 1], inds[|inds| - 1];
      TagCount(init, field, value, m);
      assert inds == init + [last];
      assert Tag(inds, field, value) == Tag(init, field, value) + [MatchResult(last, field, value)];
    }
  }

  lemma CoveringStep(inds: seq<Indicator>, ip: U32, k: nat)
    requires inds != []
    ensures var init, last := inds[..|inds| - 1], inds[|inds| - 1];
            CoveringOfLength(inds, ip, k) ==
              if IndexHitsIp(last, ip) && RangeOf(last).value.prefix == k then CoveringOfLength(init, ip, k) + [last] else CoveringOfLength(init, ip, k)
  {
    hide IndexHitsIp;
  }

  lemma {:induction false} CoveringCount(inds: seq<Indicator>, ip: U32, k: nat, x: Indicator)
    ensures multiset(CoveringOfLength(inds, ip, k))[x] ==
            if IndexHitsIp(x, ip) && RangeOf(x).value.prefix == k then multiset(inds)[x] else 0
  {
    hide IndexHitsIp;
    if inds != [] {
      var init, last := inds[..|inds| - 1], inds[|inds| - 1];
      CoveringCount(init, ip, k, x);
      CoveringStep(inds, ip, k);
      hide CoveringOfLength;
      assert inds == init + [last];
      MultisetSnoc(init, last);
      MultisetSnoc(CoveringOfLength(init, ip, k), last);
    }
  }

  lemma {:induction false} IpHitsCount(inds: seq<Indicator>, ip: U32, k: nat, x: Indicator)
    requires k <= 33
    ensures multiset(IpHitsFrom(inds, ip, k))[x] ==
            if IndexHitsIp(x, ip) && RangeOf(x).value.prefix >= k then multiset(inds)[x] else 0
    ensures k == 0 ==> multiset(IpHitsFrom(inds, ip, 0))[x] == if IndexHitsIp(x, ip) then multiset(inds)[x] else 0
    decreases 33 - k
  {
    hide Contains, CoveringOfLength;
    if k < 33 {
      CoveringCount(inds, ip, k, x);
      IpHitsCount(inds, ip, k + 1, x);
    }
  }

  lemma {:induction false} IpScanCount(inds: seq<Indicator>, ip: U32, field: string, m: MatchResult)
    ensures multiset(IpMatches(inds, ip, field))[m] ==
            if m.field == field && m.value == Ipv4ToString(ip) && ScanHitsIp(m.indicator, ip) then multiset(inds)[m.indicator] else 0
  {
    hide ScanHitsIp, Ipv4ToString;
    if inds != [] {
      IpScanCount(inds[..|inds| - 1], ip, field, m);
      assert inds == inds[..|inds| - 1] + [inds[|inds| - 1]];
    }
  }

  lemma IpAnswersAgree(inds: seq<Indicator>, ip: U32, field: string)
    requires forall i :: i in inds ==> ConsistentIp(i)
    ensures multiset(IpAnswer(inds, ip, field)) == multiset(IpMatches(inds, ip, field))
  {
    hide IndexHitsIp, ScanHitsIp, ConsistentIp, Ipv4ToString, IpHitsFrom, IpMatches;
    forall m ensures multiset(IpAnswer(inds, ip, field))[m] == multiset(IpMatches(inds, ip, field))[m] {
      TagCount(IpHitsFrom(inds, ip, 0), field, Ipv4ToString(ip), m);
      IpHitsCount(inds, ip, 0, m.indicator);
      IpScanCount(inds, ip, field, m);
      if m.indicator in inds {
        IpAgreementIff(m.indicator);
      } else {
        assert multiset(inds)[m.indicator] == 0;
      }
    }
  }

  /** Address answers agree as bags on every address exactly when all indicators are consistent. */
  lemma IpAnswersIff(inds: seq<Indicator>, field: string)
    ensures (forall ip: U32 :: multiset(IpAnswer(inds, ip, field)) == multiset(IpMatches(inds, ip, field)))
            <==> forall i :: i in inds ==> ConsistentIp(i)
  {
    hide IndexHitsIp, ScanHitsIp, ConsistentIp, IpAnswer, IpMatches;
    if forall i :: i in inds ==> ConsistentIp(i) {
      forall ip: U32 ensures multiset(IpAnswer(inds, ip, field)) == multiset(IpMatches(inds, ip, field)) { IpAnswersAgree(inds, ip, field); }
    } else {
      var i :| i in inds && !ConsistentIp(i);
      IpAgreementIff(i);
      var ip: U32 :| IndexHitsIp(i, ip) != ScanHitsIp(i, ip);
      OneIpDiffers(inds, i, ip, field);
    }
  }

  lemma OneIpDiffers(inds: seq<Indicator>, i: Indicator, ip: U32, field: string)
    requires i in inds && IndexHitsIp(i, ip) != ScanHitsIp(i, ip)
    ensures multiset(IpAnswer(inds, ip, field)) != multiset(IpMatches(inds, ip, field))
  {
    hide IndexHitsIp, ScanHitsIp, Ipv4ToString, IpHitsFrom, IpMatches;
    var m := MatchResult(i, field, Ipv4ToString(ip));
    TagCount(IpHitsFrom(inds, ip, 0), field, Ipv4ToString(ip), m);
    IpHitsCount(inds, ip, 0, i);
    IpScanCount(inds, ip, field, m);
    assert i in multiset(inds);
    assert multiset(IpAnswer(inds, ip, field))[m] != multiset(IpMatches(inds, ip, field))[m];
  }

  lemma {:induction false} BucketCount(inds: seq<Indicator>, b: Bucket, x: Indicator)
    ensures multiset(InBucket(inds, b))[x] == if BucketOf(x) == b then multiset(inds)[x] else 0
  {
    hide BucketOf;
    if inds != [] {
      BucketCount(inds[..|inds| - 1], b, x);
      assert inds == inds[..|inds| - 1] + [inds[|inds| - 1]];
    }
  }

  predicate InKeys(x: Indicator, keys: seq<string>, observed: string) {
    BucketOf(x).DomainKey? && BucketOf(x).name in keys && DomainMatches(BucketOf(x).name, observed)
  }

  lemma {:induction false} NameHitsCount(inds: seq<Indicator>, keys: seq<string>, observed: string, x: Indicator)
    requires Distinct(keys)
    ensures multiset(NameHits(inds, keys, observed))[x] == if InKeys(x, keys, observed) then multiset(inds)[x] else 0
  {
    hide BucketOf, DomainMatches, InBucket;
    if keys != [] {
      var k, rest := keys[0], keys[1..];
      NameHitsCount(inds, rest, observed, x);
      BucketCount(inds, DomainKey(k), x);
      assert keys == [k] + rest;
      assert k !in rest;
      var here := if DomainMatches(k, observed) then InBucket(inds, DomainKey(k)) else [];
      assert NameHits(inds, keys, observed) == here + NameHits(inds, rest, observed);
      hide NameHits;
      MultisetConcat(here, NameHits(inds, rest, observed));
    }
  }

  lemma {:induction false} NameScanCount(inds: seq<Indicator>, name: string, m: MatchResult)
    ensures multiset(NameMatches(inds, name))[m] ==
            if m.field == "dns.name" && m.value == NormalizeDomain(name) && ScanHitsName(m.indicator, name) then multiset(inds)[m.indicator] else 0
  {
    hide ScanHitsName, NormalizeDomain;
    if inds != [] {
      NameScanCount(inds[..|inds| - 1], name, m);
      assert inds == inds[..|inds| - 1] + [inds[|inds| - 1]];
    }
  }

  lemma IndexHitIff(i: Indicator, inds: seq<Indicator>, name: string)
    requires i in inds
    ensures InKeys(i, SortedKeys(DomainKeys(inds)), NormalizeDomain(name)) <==> NamedHost(i) && IndexMatchesName(HostOf(i), name)
  {
    hide NormalizeDomain, NormalizeHash, PathOf, HostOf, DomainMatches;
    if NamedHost(i) { assert BucketOf(i).name in DomainKeys(inds); }
  }

  /** How often a result occurs in the two name answers. */
  lemma NameAnswerCounts(inds: seq<Indicator>, name: string, m: MatchResult)
    ensures multiset(DomainAnswer(inds, name, "dns.name"))[m] ==
            if m.field == "dns.name" && m.value == NormalizeDomain(name) && NamedHost(m.indicator) && IndexMatchesName(HostOf(m.indicator), name)
            then multiset(inds)[m.indicator] else 0
    ensures multiset(NameMatches(inds, name))[m] ==
            if m.field == "dns.name" && m.value == NormalizeDomain(name) && NamedHost(m.indicator) && DomainMatches(HostOf(m.indicator), name)
            then multiset(inds)[m.indicator] else 0
  {
    hide NormalizeDomain, InKeys, NameHits, DomainKeys, NameMatches, IndexMatchesName, DomainMatches, HostOf;
    var keys := SortedKeys(DomainKeys(inds));
    var observed := NormalizeDomain(name);
    TagCount(NameHits(inds, keys, observed), "dns.name", observed, m);
    NameHitsCount(inds, keys, observed, m.indicator);
    NameScanCount(inds, name, m);
    if m.indicator in inds { IndexHitIff(m.indicator, inds, name); } else { assert multiset(inds)[m.indicator] == 0; }
  }

  lemma DomainAnswersAgree(inds: seq<Indicator>, name: string)
    requires forall i :: i in inds ==> ConsistentName(i)
    requires Clean(name)
    ensures multiset(DomainAnswer(inds, name, "dns.name")) == multiset(NameMatches(inds, name))
  {
    hide NormalizeDomain, Stable, Clean, DomainAnswer, NameMatches, HostOf, IndexMatchesName, DomainMatches;
    forall m ensures multiset(DomainAnswer(inds, name, "dns.name"))[m] == multiset(NameMatches(inds, name))[m] {
      NameAnswerCounts(inds, name, m);
      if m.indicator in inds && NamedHost(m.indicator) {
        assert ConsistentName(m.indicator);
        IndexAgreesOnName(HostOf(m.indicator), name);
      } else if m.indicator !in inds {
        assert multiset(inds)[m.indicator] == 0;
      }
    }
  }

  /** Name answers agree as bags on every space-free name exactly when every stored host meets the exact condition. */
  lemma NameAnswersIff(inds: seq<Indicator>)
    ensures (forall name: string | NoSpaces(name) :: multiset(DomainAnswer(inds, name, "dns.name")) == multiset(NameMatches(inds, name)))
            <==> forall i :: i in inds && NamedHost(i) ==> Agreeable(HostOf(i))
  {
    hide NoSpaces, DomainAnswer, NameMatches, NamedHost, Agreeable, HostOf, IndexMatchesName, DomainMatches, NormalizeDomain;
    if forall i :: i in inds && NamedHost(i) ==> Agreeable(HostOf(i)) {
      forall name: string | NoSpaces(name) ensures multiset(DomainAnswer(inds, name, "dns.name")) == multiset(NameMatches(inds, name)) {
        AgreeableAnswers(inds, name);
      }
    } else {
      var i :| i in inds && NamedHost(i) && !Agreeable(HostOf(i));
      AgreementIffStable(HostOf(i));
      var name: string :| NoSpaces(name) && IndexMatchesName(HostOf(i), name) != DomainMatches(HostOf(i), name);
      var m := MatchResult(i, "dns.name", NormalizeDomain(name));
      NameAnswerCounts(inds, name, m);
      assert i in multiset(inds);
      assert multiset(DomainAnswer(inds, name, "dns.name"))[m] != multiset(NameMatches(inds, name))[m];
    }
  }

  lemma AgreeableAnswers(inds: seq<Indicator>, name: string)
    requires NoSpaces(name) && forall i :: i in inds && NamedHost(i) ==> Agreeable(HostOf(i))
    ensures multiset(DomainAnswer(inds, name, "dns.name")) == multiset(NameMatches(inds, name))
  {
    hide NoSpaces, DomainAnswer, NameMatches, NamedHost, Agreeable, HostOf, IndexMatchesName, DomainMatches, NormalizeDomain;
    forall m ensures multiset(DomainAnswer(inds, name, "dns.name"))[m] == multiset(NameMatches(inds, name))[m] {
      NameAnswerCounts(inds, name, m);
      if m.indicator in inds && NamedHost(m.indicator) {
        AgreementIffStable(HostOf(m.indicator));
      } else if m.indicator !in inds {
        assert multiset(inds)[m.indicator] == 0;
      }
    }
  }

  lemma {:induction false} AllDomainAnswersAgree(inds: seq<Indicator>, names: seq<string>)
    requires forall i :: i in inds ==> ConsistentName(i)
    requires forall n :: n in names ==> Clean(n)
    ensures multiset(AllDomainAnswers(inds, names)) == multiset(AllNameMatches(inds, names))
  {
    hide ConsistentName, Clean, DomainAnswer, NameMatches;
    if names != [] {
      AllDomainAnswersAgree(inds, names[..|names| - 1]);
      DomainAnswersAgree(inds, names[|names| - 1]);
    }
  }

  /**
   * The fast form refines the simple one: on consistent indicators and clean
   * names, allow-list suppression included, the index's packet answer is the
   * scan's up to order.
   */
  lemma IndexRefinesScan(inds: seq<Indicator>, md: Observed)
    requires forall i :: i in inds ==> Consistent(i)
    requires forall n :: n in md.names ==> Clean(n)
    ensures multiset(PacketAnswer(inds, md)) == multiset(ScanPacket(inds, md))
  {
    hide ConsistentIp, ConsistentName, Clean, IpAnswer, IpMatches, AllDomainAnswers, AllNameMatches, Suppress;
    if md.ipv4.Some? {
      IpAnswersAgree(inds, md.ipv4.value.0, "ipv4.source");
      IpAnswersAgree(inds, md.ipv4.value.1, "ipv4.destination");
    }
    AllDomainAnswersAgree(inds, md.names);
    SuppressOnBags(IndexHits(inds, md), ScanHits(inds, md));
  }

  // ---- packets, exactly ----

  lemma {:induction false} AllAgreeableAnswers(inds: seq<Indicator>, names: seq<string>)
    requires forall i :: i in inds && NamedHost(i) ==> Agreeable(HostOf(i))
    requires forall n :: n in names ==> NoSpaces(n)
    ensures multiset(AllDomainAnswers(inds, names)) == multiset(AllNameMatches(inds, names))
  {
    hide Agreeable, NoSpaces, DomainAnswer, NameMatches, HostOf;
    if names != [] {
      AllAgreeableAnswers(inds, names[..|names| - 1]);
      AgreeableAnswers(inds, names[|names| - 1]);
      MultisetConcat(AllDomainAnswers(inds, names[..|names| - 1]), DomainAnswer(inds, names[|names| - 1], "dns.name"));
      MultisetConcat(AllNameMatches(inds, names[..|names| - 1]), NameMatches(inds, names[|names| - 1]));
    }
  }

  /** On space-free names the weaker condition on hosts is enough, suppression included. */
  lemma AgreeableRefinesScan(inds: seq<Indicator>, md: Observed)
    requires forall i :: i in inds ==> ConsistentIp(i)
    requires forall i :: i in inds && NamedHost(i) ==> Agreeable(HostOf(i))
    requires forall n :: n in md.names ==> NoSpaces(n)
    ensures multiset(PacketAnswer(inds, md)) == multiset(ScanPacket(inds, md))
  {
    hide ConsistentIp, Agreeable, NoSpaces, IpAnswer, IpMatches, AllDomainAnswers, AllNameMatches, Suppress, HostOf;
    if md.ipv4.Some? {
      IpAnswersAgree(inds, md.ipv4.value.0, "ipv4.source");
      IpAnswersAgree(inds, md.ipv4.value.1, "ipv4.destination");
    }
    AllAgreeableAnswers(inds, md.names);
    SuppressOnBags(IndexHits(inds, md), ScanHits(inds, md));
  }

  lemma {:induction false} NothingToSuppress(all: seq<MatchResult>, part: seq<MatchResult>)
    requires forall m :: m in all ==> m.indicator.role != Allow
    ensures KeepUnsuppressed(all, part) == part
  {
    hide Suppressed;
    if part != [] {
      var init, last := part[..|part| - 1], part[|part| - 1];
      NothingToSuppress(all, init);
      NotSuppressed(all, last);
      assert part == init + [last];
    }
  }

  lemma NotSuppressed(all: seq<MatchResult>, m: MatchResult)
    requires forall a :: a in all ==> a.indicator.role != Allow
    ensures !Suppressed(all, m)
  {}

  ghost predicate NoAllowed(inds: seq<Indicator>) { forall i :: i in inds ==> i.role != Allow }

  /** A packet of two equal addresses and no name, and one of a name alone. */
  function AddressPacket(ip: U32): Observed { Observed(Some((ip, ip)), []) }

  function NamePacket(name: string): Observed { Observed(None, [name]) }

  lemma AddressPacketAnswers(inds: seq<Indicator>, ip: U32)
    requires NoAllowed(inds)
    ensures PacketAnswer(inds, AddressPacket(ip)) == IpAnswer(inds, ip, "ipv4.source") + IpAnswer(inds, ip, "ipv4.destination")
    ensures ScanPacket(inds, AddressPacket(ip)) == IpMatches(inds, ip, "ipv4.source") + IpMatches(inds, ip, "ipv4.destination")
  {
    hide IpAnswer, IpMatches, Suppress;
    var index, scan := IndexHits(inds, AddressPacket(ip)), ScanHits(inds, AddressPacket(ip));
    assert index == IpAnswer(inds, ip, "ipv4.source") + IpAnswer(inds, ip, "ipv4.destination");
    assert scan == IpMatches(inds, ip, "ipv4.source") + IpMatches(inds, ip, "ipv4.destination");
    forall m | m in index ensures m.indicator.role != Allow { IpAnswerMember(inds, ip, m); }
    forall m | m in scan ensures m.indicator.role != Allow { IpMatchMember(inds, ip, m); }
    SuppressesNothing(index);
    SuppressesNothing(scan);
  }

  lemma SuppressesNothing(all: seq<MatchResult>)
    requires forall m :: m in all ==> m.indicator.role != Allow
    ensures Suppress(all) == all
  {
    NothingToSuppress(all, all);
  }

  lemma IpAnswerMember(inds: seq<Indicator>, ip: U32, m: MatchResult)
    requires m in IpAnswer(inds, ip, "ipv4.source") + IpAnswer(inds, ip, "ipv4.destination")
    ensures m.indicator in inds
  {
    hide IpHitsFrom, Ipv4ToString, IndexHitsIp;
    assert m.indicator in IpHitsFrom(inds, ip, 0);
    IpHitsCount(inds, ip, 0, m.indicator);
    assert multiset(IpHitsFrom(inds, ip, 0))[m.indicator] > 0;
    assert m.indicator in multiset(inds);
  }

  lemma IpMatchMember(inds: seq<Indicator>, ip: U32, m: MatchResult)
    requires m in IpMatches(inds, ip, "ipv4.source") + IpMatches(inds, ip, "ipv4.destination")
    ensures m.indicator in inds
  {
    hide IpMatches, Ipv4ToString, ScanHitsIp;
    var field := if m in IpMatches(inds, ip, "ipv4.source") then "ipv4.source" else "ipv4.destination";
    IpScanCount(inds, ip, field, m);
    assert multiset(IpMatches(inds, ip, field))[m] > 0;
    assert m.indicator in multiset(inds);
  }

  lemma NamePacketAnswers(inds: seq<Indicator>, name: string)
    requires NoAllowed(inds)
    ensures PacketAnswer(inds, NamePacket(name)) == DomainAnswer(inds, name, "dns.name")
    ensures ScanPacket(inds, NamePacket(name)) == NameMatches(inds, name)
  {
    hide DomainAnswer, NameMatches, Suppress;
    OneNameOnly(inds, name);
    var index, scan := IndexHits(inds, NamePacket(name)), ScanHits(inds, NamePacket(name));
    forall m | m in index || m in scan ensures m.indicator.role != Allow { NameHitMember(inds, name, m); }
    SuppressesNothing(index);
    SuppressesNothing(scan);
  }

  lemma OneNameOnly(inds: seq<Indicator>, name: string)
    ensures IndexHits(inds, NamePacket(name)) == DomainAnswer(inds, name, "dns.name")
    ensures ScanHits(inds, NamePacket(name)) == NameMatches(inds, name)
  {
    hide DomainAnswer, NameMatches;
    assert [name][..0] == [] && AllDomainAnswers(inds, []) == [] && AllNameMatches(inds, []) == [];
    assert AllDomainAnswers(inds, [name]) == DomainAnswer(inds, name, "dns.name");
    assert AllNameMatches(inds, [name]) == NameMatches(inds, name);
  }

  lemma NameHitMember(inds: seq<Indicator>, name: string, m: MatchResult)
    requires m in DomainAnswer(inds, name, "dns.name") || m in NameMatches(inds, name)
    ensures m.indicator in inds
  {
    hide DomainAnswer, NameMatches, NormalizeDomain, IndexMatchesName, DomainMatches, HostOf;
    NameAnswerCounts(inds, name, m);
    assert multiset(DomainAnswer(inds, name, "dns.name"))[m] > 0 || multiset(NameMatches(inds, name))[m] > 0;
    assert m.indicator in multiset(inds);
  }

  /**
   * Without an allow-listed indicator, packet answers agree as bags on all
   * packets with space-free names exactly when every indicator's address fields
   * are consistent and every stored host meets the exact condition.
   */
  lemma PacketAnswersIff(inds: seq<Indicator>)
    requires NoAllowed(inds)
    ensures (forall md: Observed | (forall n :: n in md.names ==> NoSpaces(n)) :: multiset(PacketAnswer(inds, md)) == multiset(ScanPacket(inds, md)))
            <==> forall i :: i in inds ==> ConsistentIp(i) && (NamedHost(i) ==> Agreeable(HostOf(i)))
  {
    hide ConsistentIp, Agreeable, NoSpaces, PacketAnswer, ScanPacket, HostOf, NamedHost;
    if forall i :: i in inds ==> ConsistentIp(i) && (NamedHost(i) ==> Agreeable(HostOf(i))) {
      forall md: Observed | forall n :: n in md.names ==> NoSpaces(n)
        ensures multiset(PacketAnswer(inds, md)) == multiset(ScanPacket(inds, md))
      {
        AgreeableRefinesScan(inds, md);
      }
    } else {
      var md := DifferingPacket(inds);
      assert multiset(PacketAnswer(inds, md)) != multiset(ScanPacket(inds, md));
    }
  }

  /** A packet that the two sides answer differently. */
  lemma DifferingPacket(inds: seq<Indicator>) returns (md: Observed)
    requires NoAllowed(inds)
    requires exists i :: i in inds && !(ConsistentIp(i) && (NamedHost(i) ==> Agreeable(HostOf(i))))
    ensures forall n :: n in md.names ==> NoSpaces(n)
    ensures multiset(PacketAnswer(inds, md)) != multiset(ScanPacket(inds, md))
  {
    hide ConsistentIp, Agreeable, NoSpaces, PacketAnswer, ScanPacket, HostOf, NamedHost, IpAnswer, IpMatches, DomainAnswer, NameMatches;
    if forall i :: i in inds ==> ConsistentIp(i) {
      NameAnswersIff(inds);
      var name: string :| NoSpaces(name) && multiset(DomainAnswer(inds, name, "dns.name")) != multiset(NameMatches(inds, name));
      md := NamePacket(name);
      NamePacketAnswers(inds, name);
    } else {
      var i :| i in inds && !ConsistentIp(i);
      IpAgreementIff(i);
      var ip: U32 :| IndexHitsIp(i, ip) != ScanHitsIp(i, ip);
      md := AddressPacket(ip);
      AddressPacketAnswers(inds, ip);
      AddressPacketDiffers(inds, i, ip);
    }
  }

  lemma AddressPacketDiffers(inds: seq<Indicator>, i: Indicator, ip: U32)
    requires i in inds && IndexHitsIp(i, ip) != ScanHitsIp(i, ip)
    ensures multiset(IpAnswer(inds, ip, "ipv4.source") + IpAnswer(inds, ip, "ipv4.destination"))
            != multiset(IpMatches(inds, ip, "ipv4.source") + IpMatches(inds, ip, "ipv4.destination"))
  {
    hide IndexHitsIp, ScanHitsIp, Ipv4ToString, IpHitsFrom, IpMatches, IpAnswer;
    var m := MatchResult(i, "ipv4.source", Ipv4ToString(ip));
    SourceCounts(inds, ip, m);
    var a, b := IpAnswer(inds, ip, "ipv4.source"), IpAnswer(inds, ip, "ipv4.destination");
    var c, d := IpMatches(inds, ip, "ipv4.source"), IpMatches(inds, ip, "ipv4.destination");
    MultisetConcat(a, b);
    MultisetConcat(c, d);
    assert i in multiset(inds);
    assert multiset(a + b)[m] != multiset(c + d)[m];
  }

  lemma SourceCounts(inds: seq<Indicator>, ip: U32, m: MatchResult)
    requires m.field == "ipv4.source" && m.value == Ipv4ToString(ip)
    ensures multiset(IpAnswer(inds, ip, "ipv4.source"))[m] == if IndexHitsIp(m.indicator, ip) then multiset(inds)[m.indicator] else 0
    ensures multiset(IpAnswer(inds, ip, "ipv4.destination"))[m] == 0
    ensures multiset(IpMatches(inds, ip, "ipv4.source"))[m] == if ScanHitsIp(m.indicator, ip) then multiset(inds)[m.indicator] else 0
    ensures multiset(IpMatches(inds, ip, "ipv4.destination"))[m] == 0
  {
    hide IndexHitsIp, ScanHitsIp, Ipv4ToString, IpHitsFrom, IpMatches;
    TagCount(IpHitsFrom(inds, ip, 0), "ipv4.source", Ipv4ToString(ip), m);
    TagCount(IpHitsFrom(inds, ip, 0), "ipv4.destination", Ipv4ToString(ip), m);
    IpHitsCount(inds, ip, 0, m.indicator);
    IpScanCount(inds, ip, "ipv4.source", m);
    IpScanCount(inds, ip, "ipv4.destination", m);
  }

  // ---- runs ----

  /** Every indicator that a run files is consistent once its normal form is filled in. */
  ghost predicate FilesConsistent(ops: seq<Op>) {
    forall k :: 0 <= k < |ops| && ops[k].Add? ==> Consistent(Prepared(ops[k].indicator))
  }

  ghost predicate AllConsistent(rs: seq<IndexedIndicator>) { forall r :: r in rs ==> Consistent(r.indicator) }

  lemma RoleKeepsConsistent(i: Indicator, role: ListRole)
    ensures Consistent(i.(role := role)) == Consistent(i)
  {}

  lemma StepKeepsConsistent(c: Core, op: Op)
    requires AllConsistent(c.records) && (op.Add? ==> Consistent(Prepared(op.indicator)))
    ensures AllConsistent(Step(c, op).records)
  {
    hide Consistent, Prepared, IndicatorKey;
    var after := Step(c, op).records;
    forall r | r in after ensures Consistent(r.indicator) {
      match op
      case Compact => CompactedMembers(c.records, r);
      case UpdateRole(id, role) =>
        if SlotOf(c.records, id).Some? {
          RoleKeepsConsistent(c.records[SlotOf(c.records, id).value].indicator, role);
        }
      case _ =>
    }
  }

  lemma {:induction false} RunKeepsConsistent(ops: seq<Op>)
    requires FilesConsistent(ops)
    ensures AllConsistent(Run(INITIAL, ops).records)
  {
    hide Consistent, Prepared, Step;
    if ops != [] {
      var init := ops[..|ops| - 1];
      assert forall k :: 0 <= k < |init| ==> init[k] == ops[k];
      RunKeepsConsistent(init);
      StepKeepsConsistent(Run(INITIAL, init), ops[|ops| - 1]);
    }
  }

  /** In every state that any run of operations reaches, the index refines the scan of its active indicators. */
  lemma EveryRunRefinesScan(ops: seq<Op>, md: Observed)
    requires FilesConsistent(ops)
    requires forall n :: n in md.names ==> Clean(n)
    ensures var inds := Active(Run(INITIAL, ops).records);
            multiset(PacketAnswer(inds, md)) == multiset(ScanPacket(inds, md))
  {
    hide Consistent, Clean, PacketAnswer, ScanPacket, FilesConsistent;
    var rs := Run(INITIAL, ops).records;
    RunKeepsConsistent(ops);
    forall i | i in Active(rs) ensures Consistent(i) { ActiveMembers(rs, i); }
    IndexRefinesScan(Active(rs), md);
  }
}
