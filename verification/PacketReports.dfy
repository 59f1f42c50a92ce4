/** What a packet match reports, result by result, said in terms of the indicators and the packet alone. */
module PacketReports {
  import opened Collections
  import opened Text
  import opened Ipv4
  import opened Indicators
  import opened DomainNames
  import opened IndexSpec
  import opened IndexRuns
  import opened Refinement
  import opened Spellings

  // ---- suppression ----

  lemma {:induction false} KeptMarks(all: seq<MatchResult>, part: seq<MatchResult>) returns (kept: seq<bool>)
    ensures |kept| == |part| && KeepUnsuppressed(all, part) == Selected(part, kept)
    ensures forall i :: 0 <= i < |part| ==> (kept[i] <==> !Suppressed(all, part[i]))
  {
    hide Suppressed, Selected;
    kept := [];
    if part == [] {
      NothingSelected<MatchResult>();
    } else {
      var init, last := part[..|part| - 1], part[|part| - 1];
      kept := KeptMarks(all, init);
      SelectedMore(init, kept, last, !Suppressed(all, last));
      assert part == init + [last];
      kept := kept + [!Suppressed(all, last)];
    }
  }

  /**
   * The results kept are those that are allow-listed themselves, and those that
   * every allow-listed result of the list differs from in field or in value; each
   * as often as before, in the old order.
   */
  lemma SuppressionIsExact(all: seq<MatchResult>) returns (kept: seq<bool>)
    ensures |kept| == |all| && Suppress(all) == Selected(all, kept)
    ensures forall i :: 0 <= i < |all| ==>
              (kept[i] <==>
               all[i].indicator.role == Allow
               || forall a :: a in all && a.indicator.role == Allow ==> a.field != all[i].field || a.value != all[i].value)
  {
    hide Selected, KeepUnsuppressed;
    kept := KeptMarks(all, all);
  }

  lemma SuppressionCounts(all: seq<MatchResult>, m: MatchResult)
    ensures multiset(Suppress(all))[m] ==
            if m.indicator.role == Allow || forall a :: a in all && a.indicator.role == Allow ==> a.field != m.field || a.value != m.value
            then multiset(all)[m] else 0
  {
    KeepCounts(all, all, m);
  }

  /** Whether a result is kept depends only on the results of its own field and value. */
  lemma SuppressionIsLocal(xs: seq<MatchResult>, ys: seq<MatchResult>)
    requires forall x, y :: x in xs && y in ys ==> x.field != y.field || x.value != y.value
    ensures Suppress(xs + ys) == Suppress(xs) + Suppress(ys)
  {
    hide Suppressed, KeepUnsuppressed;
    KeepConcat(xs + ys, xs, ys);
    forall x | x in xs ensures Suppressed(xs + ys, x) == Suppressed(xs, x) { OthersDoNotSuppress(xs, ys, x); }
    forall y | y in ys ensures Suppressed(xs + ys, y) == Suppressed(ys, y) { OthersDoNotSuppress(ys, xs, y); SameSuppressors(xs + ys, ys + xs, y); }
    KeepSame(xs + ys, xs, xs);
    KeepSame(xs + ys, ys, ys);
  }

  lemma OthersDoNotSuppress(xs: seq<MatchResult>, ys: seq<MatchResult>, x: MatchResult)
    requires forall y :: y in ys ==> x.field != y.field || x.value != y.value
    ensures Suppressed(xs + ys, x) == Suppressed(xs, x)
  {}

  lemma SameSuppressors(a: seq<MatchResult>, b: seq<MatchResult>, m: MatchResult)
    requires forall x :: x in a <==> x in b
    ensures Suppressed(a, m) == Suppressed(b, m)
  {}

  lemma {:induction false} KeepConcat(all: seq<MatchResult>, xs: seq<MatchResult>, ys: seq<MatchResult>)
    ensures KeepUnsuppressed(all, xs + ys) == KeepUnsuppressed(all, xs) + KeepUnsuppressed(all, ys)
    decreases |ys|
  {
    hide Suppressed;
    if ys == [] {
      assert xs + ys == xs;
    } else {
      KeepConcat(all, xs, ys[..|ys| - 1]);
      assert (xs + ys)[..|xs + ys| - 1] == xs + ys[..|ys| - 1];
    }
  }

  lemma {:induction false} KeepSame(a: seq<MatchResult>, b: seq<MatchResult>, part: seq<MatchResult>)
    requires forall m :: m in part ==> Suppressed(a, m) == Suppressed(b, m)
    ensures KeepUnsuppressed(a, part) == KeepUnsuppressed(b, part)
  {
    hide Suppressed;
    if part != [] { KeepSame(a, b, part[..|part| - 1]); }
  }

  // ---- names as labels ----

  /** The last labels of the name are those of the domain. */
  predicate LabelsEndWith(name: string, domain: string) {
    var ns, ds := Fields(name, '.'), Fields(domain, '.');
    |ds| <= |ns| && ns[|ns| - |ds|..] == ds
  }

  /** Ending behind a dot, or being the same, is ending in the same labels. */
  lemma SuffixIsLabels(ind: string, obs: string)
    ensures obs == ind || EndsWith(obs, "." + ind) <==> LabelsEndWith(obs, ind)
  {
    hide Fields, Join;
    var ns, ds := Fields(obs, '.'), Fields(ind, '.');
    if EndsWith(obs, "." + ind) {
      var front := obs[..|obs| - |ind| - 1];
      assert obs == front + "." + ind;
      FieldsConcat(front, ind, '.');
    }
    if LabelsEndWith(obs, ind) && |ns| > |ds| {
      var front := ns[..|ns| - |ds|];
      assert ns == front + ds;
      JoinConcat(front, ds, '.');
      assert obs == Join(front, '.') + "." + ind;
      assert obs[|Join(front, '.')|..] == "." + ind;
    }
  }

  /** A watched domain is hit exactly by itself and the names below it, label by label. */
  lemma MatchIsLabels(host: string, name: string)
    ensures DomainMatches(host, name) <==>
            NormalizeDomain(host) != "" && NormalizeDomain(name) != "" && LabelsEndWith(NormalizeDomain(name), NormalizeDomain(host))
  {
    hide NormalizeDomain, EndsWith, LabelsEndWith;
    SuffixIsLabels(NormalizeDomain(host), NormalizeDomain(name));
  }

  // ---- hits ----

  /** The indicator names the address, or a range that fixes its leading bits. */
  predicate WatchesAddress(i: Indicator, x: U32) {
    || (i.kind == Ip && i.ip == Some(x))
    || (i.kind == Cidr && i.cidr.Some? && Bits(x)[..i.cidr.value.prefix] == Bits(i.cidr.value.network)[..i.cidr.value.prefix])
  }

  /** The name is the watched domain or host, or stands below it. */
  predicate WatchesName(i: Indicator, name: string) {
    && (i.kind == Domain || i.kind == Url)
    && (var host := NormalizeDomain(HostOf(i));
        host != "" && NormalizeDomain(name) != "" && LabelsEndWith(NormalizeDomain(name), host))
  }

  lemma HitsAddressIff(i: Indicator, x: U32)
    ensures ScanHitsIp(i, x) <==> WatchesAddress(i, x)
  {
    hide Contains;
    if i.cidr.Some? { ContainsIsPrefixMatch(i.cidr.value, x); }
  }

  lemma HitsNameIff(i: Indicator, name: string)
    ensures ScanHitsName(i, name) <==> WatchesName(i, name)
  {
    hide NormalizeDomain, EndsWith, LabelsEndWith, DomainMatches, HostOf;
    MatchIsLabels(HostOf(i), name);
  }

  lemma {:induction false} AddressMembers(inds: seq<Indicator>, x: U32, field: string, m: MatchResult)
    ensures m in IpMatches(inds, x, field) <==>
            m.indicator in inds && WatchesAddress(m.indicator, x) && m.field == field && m.value == Ipv4ToString(x)
  {
    hide ScanHitsIp, WatchesAddress, Ipv4ToString;
    if inds != [] {
      var last := inds[|inds| - 1];
      AddressMembers(inds[..|inds| - 1], x, field, m);
      HitsAddressIff(last, x);
      assert inds == inds[..|inds| - 1] + [last];
    }
  }

  lemma {:induction false} NameMembers(inds: seq<Indicator>, name: string, m: MatchResult)
    ensures m in NameMatches(inds, name) <==>
            m.indicator in inds && WatchesName(m.indicator, name) && m.field == "dns.name" && m.value == NormalizeDomain(name)
  {
    hide ScanHitsName, WatchesName, NormalizeDomain;
    if inds != [] {
      var last := inds[|inds| - 1];
      NameMembers(inds[..|inds| - 1], name, m);
      HitsNameIff(last, name);
      assert inds == inds[..|inds| - 1] + [last];
    }
  }

  lemma {:induction false} AllNameMembers(inds: seq<Indicator>, names: seq<string>, m: MatchResult)
    ensures m in AllNameMatches(inds, names) <==>
            m.indicator in inds && m.field == "dns.name"
            && exists n :: n in names && WatchesName(m.indicator, n) && m.value == NormalizeDomain(n)
  {
    hide NameMatches, WatchesName, NormalizeDomain;
    if names != [] {
      var init, last := names[..|names| - 1], names[|names| - 1];
      AllNameMembers(inds, init, m);
      NameMembers(inds, last, m);
      assert forall n :: n in names <==> n in init || n == last;
    }
  }

  /** Every result of the scan before suppression, by field. */
  lemma HitsAre(inds: seq<Indicator>, md: Observed, m: MatchResult)
    ensures m in ScanHits(inds, md) <==>
            m.indicator in inds
            && (|| (md.ipv4.Some? && m.field == "ipv4.source" && m.value == Ipv4ToString(md.ipv4.value.0)
                    && WatchesAddress(m.indicator, md.ipv4.value.0))
                || (md.ipv4.Some? && m.field == "ipv4.destination" && m.value == Ipv4ToString(md.ipv4.value.1)
                    && WatchesAddress(m.indicator, md.ipv4.value.1))
                || (m.field == "dns.name" && exists n :: n in md.names && WatchesName(m.indicator, n) && m.value == NormalizeDomain(n)))
  {
    hide WatchesAddress, WatchesName, NormalizeDomain, Ipv4ToString, IpMatches, AllNameMatches;
    if md.ipv4.Some? {
      AddressMembers(inds, md.ipv4.value.0, "ipv4.source", m);
      AddressMembers(inds, md.ipv4.value.1, "ipv4.destination", m);
    }
    AllNameMembers(inds, md.names, m);
  }

  /** The name, normalized, is the domain or ends in its labels. */
  predicate Under(name: string, domain: string) {
    domain != "" && NormalizeDomain(name) != "" && LabelsEndWith(NormalizeDomain(name), domain)
  }

  /** A domain indicator watches its own name, a URL indicator the host of the URL that it was stored from, unless a port is shown. */
  lemma WatchedHost(i: Indicator, u: UrlParts, name: string)
    ensures i.kind == Domain ==> (WatchesName(i, name) <==> Under(name, NormalizeDomain(i.normalized)))
    ensures i.kind == Url && ReadableUrl(u) && Tight(UrlText(u)) && i.normalized == NormalizeUrl(UrlText(u))
            && (u.port.Some? ==> !PortShows(ToLower(u.scheme), u.port.value)) ==>
              (WatchesName(i, name) <==> Under(name, NormalizeDomain(NormalizeDomain(u.host))))
  {
    hide NormalizeDomain, LabelsEndWith, NormalizeUrl, UrlHost, UrlText, PortShows, Tight, ReadableUrl;
    if i.kind == Url && ReadableUrl(u) && Tight(UrlText(u)) && i.normalized == NormalizeUrl(UrlText(u))
       && (u.port.Some? ==> !PortShows(ToLower(u.scheme), u.port.value)) {
      StoredHost(u);
    }
  }

  // ---- order, and the other lookups ----

  lemma TagMore(inds: seq<Indicator>, last: Indicator, field: string, value: string)
    ensures Tag(inds + [last], field, value) == Tag(inds, field, value) + [MatchResult(last, field, value)]
  {}

  lemma NothingTagged(field: string, value: string)
    ensures Tag([], field, value) == []
  {}

  /** The hits on an address come in list order: one for each indicator that watches it. */
  lemma {:induction false} AddressHitsInOrder(inds: seq<Indicator>, x: U32, field: string) returns (hit: seq<bool>)
    ensures |hit| == |inds| && IpMatches(inds, x, field) == Tag(Selected(inds, hit), field, Ipv4ToString(x))
    ensures forall k :: 0 <= k < |inds| ==> (hit[k] <==> WatchesAddress(inds[k], x))
  {
    hide ScanHitsIp, WatchesAddress, Ipv4ToString, Selected, Tag;
    hit := [];
    if inds == [] {
      NothingSelected<Indicator>();
      NothingTagged(field, Ipv4ToString(x));
    } else {
      var init, last := inds[..|inds| - 1], inds[|inds| - 1];
      hit := AddressHitsInOrder(init, x, field);
      HitsAddressIff(last, x);
      SelectedMore(init, hit, last, WatchesAddress(last, x));
      TagMore(Selected(init, hit), last, field, Ipv4ToString(x));
      assert inds == init + [last];
      hit := hit + [WatchesAddress(last, x)];
    }
  }

  lemma {:induction false} NameHitsInOrder(inds: seq<Indicator>, name: string) returns (hit: seq<bool>)
    ensures |hit| == |inds| && NameMatches(inds, name) == Tag(Selected(inds, hit), "dns.name", NormalizeDomain(name))
    ensures forall k :: 0 <= k < |inds| ==> (hit[k] <==> WatchesName(inds[k], name))
  {
    hide ScanHitsName, WatchesName, NormalizeDomain, Selected, Tag;
    hit := [];
    if inds == [] {
      NothingSelected<Indicator>();
      NothingTagged("dns.name", NormalizeDomain(name));
    } else {
      var init, last := inds[..|inds| - 1], inds[|inds| - 1];
      hit := NameHitsInOrder(init, name);
      HitsNameIff(last, name);
      SelectedMore(init, hit, last, WatchesName(last, name));
      TagMore(Selected(init, hit), last, "dns.name", NormalizeDomain(name));
      assert inds == init + [last];
      hit := hit + [WatchesName(last, name)];
    }
  }

  /** Source hits, then destination hits, then the hits on each name in turn. */
  lemma HitsByField(inds: seq<Indicator>, src: U32, dst: U32, names: seq<string>, last: string)
    ensures ScanHits(inds, Observed(Some((src, dst)), [])) == IpMatches(inds, src, "ipv4.source") + IpMatches(inds, dst, "ipv4.destination")
    ensures forall ipv4 :: ScanHits(inds, Observed(ipv4, names + [last])) == ScanHits(inds, Observed(ipv4, names)) + NameMatches(inds, last)
    ensures ScanHits(inds, Observed(None, [])) == []
  {
    hide IpMatches, NameMatches;
    assert (names + [last])[..|names|] == names;
    forall ipv4 ensures ScanHits(inds, Observed(ipv4, names + [last])) == ScanHits(inds, Observed(ipv4, names)) + NameMatches(inds, last) {}
  }

  /** For consistent indicators the index tests an address as the scan does. */
  lemma IndexWatchesAddress(i: Indicator, x: U32)
    requires ConsistentIp(i)
    ensures IndexHitsIp(i, x) <==> WatchesAddress(i, x)
  {
    hide IndexHitsIp, ScanHitsIp, WatchesAddress, ConsistentIp;
    IpAgreementIff(i);
    HitsAddressIff(i, x);
  }

  lemma {:induction false} CoveringInOrder(inds: seq<Indicator>, x: U32, k: nat) returns (hit: seq<bool>)
    ensures |hit| == |inds| && CoveringOfLength(inds, x, k) == Selected(inds, hit)
    ensures forall j :: 0 <= j < |inds| ==> (hit[j] <==> IndexHitsIp(inds[j], x) && HasLength(inds[j], k))
  {
    hide IndexHitsIp, Selected, CoveringOfLength;
    hit := [];
    if inds == [] {
      NothingSelected<Indicator>();
      NothingCovers(x, k);
    } else {
      var init, last := inds[..|inds| - 1], inds[|inds| - 1];
      hit := CoveringInOrder(init, x, k);
      CoveringStep(inds, x, k);
      HitHasRange(last, x);
      var mark := IndexHitsIp(last, x) && HasLength(last, k);
      SelectedMore(init, hit, last, mark);
      assert inds == init + [last];
      hit := hit + [mark];
    }
  }

  predicate HasLength(i: Indicator, k: nat) { RangeOf(i).Some? && RangeOf(i).value.prefix == k }

  lemma NothingCovers(x: U32, k: nat)
    ensures CoveringOfLength([], x, k) == []
  {}

  /** The part of an answer whose ranges fix `k` bits. */
  function OfLength(inds: seq<Indicator>, k: nat): seq<Indicator> {
    if inds == [] then [] else OfLength(inds[..|inds| - 1], k) + (if HasLength(inds[|inds| - 1], k) then [inds[|inds| - 1]] else [])
  }

  lemma {:induction false} OfLengthConcat(a: seq<Indicator>, b: seq<Indicator>, k: nat)
    ensures OfLength(a + b, k) == OfLength(a, k) + OfLength(b, k)
    decreases |b|
  {
    hide HasLength;
    if b == [] {
      assert a + b == a;
    } else {
      OfLengthConcat(a, b[..|b| - 1], k);
      assert (a + b)[..|a + b| - 1] == a + b[..|b| - 1];
    }
  }

  lemma {:induction false} AllOfLength(inds: seq<Indicator>, m: nat, k: nat)
    requires forall i :: i in inds ==> HasLength(i, m)
    ensures OfLength(inds, k) == if k == m then inds else []
  {
    hide HasLength;
    if inds != [] {
      var init, last := inds[..|inds| - 1], inds[|inds| - 1];
      assert inds == init + [last] && last in inds;
      AllOfLength(init, m, k);
      OneLength(last, m, k);
    }
  }

  lemma OneLength(i: Indicator, m: nat, k: nat)
    requires HasLength(i, m)
    ensures HasLength(i, k) <==> k == m
  {}

  lemma {:induction false} CoveringHasLength(inds: seq<Indicator>, x: U32, k: nat)
    ensures forall i :: i in CoveringOfLength(inds, x, k) ==> HasLength(i, k)
  {
    hide Contains;
    if inds != [] { CoveringHasLength(inds[..|inds| - 1], x, k); }
  }

  lemma {:induction false} HitsByLength(inds: seq<Indicator>, x: U32, from: nat, k: nat)
    requires from <= 33
    ensures OfLength(IpHitsFrom(inds, x, from), k) == if from <= k <= 32 then CoveringOfLength(inds, x, k) else []
    decreases 33 - from
  {
    hide CoveringOfLength, OfLength;
    if from == 33 {
      NothingHasLength(k);
    } else {
      var here, rest := CoveringOfLength(inds, x, from), IpHitsFrom(inds, x, from + 1);
      HitsByLength(inds, x, from + 1, k);
      OfLengthConcat(here, rest, k);
      CoveringHasLength(inds, x, from);
      AllOfLength(here, from, k);
    }
  }

  lemma NothingHasLength(k: nat)
    ensures OfLength([], k) == []
  {}

  /** Every length is at least `from`, and none is followed by a smaller one. */
  ghost predicate Rising(hits: seq<Indicator>, from: nat) {
    && (forall i :: 0 <= i < |hits| ==> RangeOf(hits[i]).Some? && RangeOf(hits[i]).value.prefix >= from)
    && (forall i, j :: 0 <= i < j < |hits| ==> RangeOf(hits[i]).value.prefix <= RangeOf(hits[j]).value.prefix)
  }

  lemma RisingConcat(here: seq<Indicator>, rest: seq<Indicator>, from: nat)
    requires (forall i :: i in here ==> HasLength(i, from)) && Rising(rest, from + 1)
    ensures Rising(here + rest, from)
  {
    hide RangeOf;
    forall i | 0 <= i < |here| ensures HasLength(here[i], from) { assert here[i] in here; }
  }

  lemma {:induction false} LengthsRise(inds: seq<Indicator>, x: U32, from: nat)
    requires from <= 33
    ensures Rising(IpHitsFrom(inds, x, from), from)
    decreases 33 - from
  {
    hide CoveringOfLength, RangeOf;
    if from < 33 {
      LengthsRise(inds, x, from + 1);
      CoveringHasLength(inds, x, from);
      RisingConcat(CoveringOfLength(inds, x, from), IpHitsFrom(inds, x, from + 1), from);
    }
  }

  /** An address lookup answers with the indicators that watch the address: wider ranges first, list order within one length. */
  lemma AddressLookup(inds: seq<Indicator>, x: U32, field: string, k: nat) returns (found: seq<Indicator>, hit: seq<bool>)
    requires (forall i :: i in inds ==> ConsistentIp(i)) && k <= 32
    ensures IpAnswer(inds, x, field) == Tag(found, field, Ipv4ToString(x))
    ensures Rising(found, 0)
    ensures |hit| == |inds| && OfLength(found, k) == Selected(inds, hit)
    ensures forall j :: 0 <= j < |inds| ==> (hit[j] <==> WatchesAddress(inds[j], x) && HasLength(inds[j], k))
  {
    hide IpHitsFrom, CoveringOfLength, OfLength, Selected, IndexHitsIp, WatchesAddress, ConsistentIp, Tag, Ipv4ToString, Rising;
    found := IpHitsFrom(inds, x, 0);
    LengthsRise(inds, x, 0);
    HitsByLength(inds, x, 0, k);
    hit := CoveringInOrder(inds, x, k);
    forall j | 0 <= j < |inds| ensures hit[j] <==> WatchesAddress(inds[j], x) && HasLength(inds[j], k) {
      IndexWatchesAddress(inds[j], x);
      HitHasRange(inds[j], x);
    }
  }

  lemma HitHasRange(i: Indicator, x: U32)
    ensures IndexHitsIp(i, x) ==> RangeOf(i).Some?
  {
    hide Contains;
  }

  predicate WatchesHash(i: Indicator, hash: string) { i.kind == Hash && NormalizeHash(i.normalized) == NormalizeHash(hash) }

  lemma {:induction false} HashHitsInOrder(inds: seq<Indicator>, hash: string) returns (hit: seq<bool>)
    ensures |hit| == |inds| && InBucket(inds, HashKey(NormalizeHash(hash))) == Selected(inds, hit)
    ensures forall k :: 0 <= k < |inds| ==> (hit[k] <==> WatchesHash(inds[k], hash))
  {
    hide NormalizeHash, NormalizeDomain, HostOf, PathOf, Selected;
    hit := [];
    if inds == [] {
      NothingSelected<Indicator>();
    } else {
      var init, last := inds[..|inds| - 1], inds[|inds| - 1];
      hit := HashHitsInOrder(init, hash);
      SelectedMore(init, hit, last, WatchesHash(last, hash));
      assert inds == init + [last];
      hit := hit + [WatchesHash(last, hash)];
    }
  }

  /** A hash lookup gives the hash indicators with that normal form, in list order and under the asked field. */
  lemma HashLookup(inds: seq<Indicator>, hash: string, field: string) returns (hit: seq<bool>)
    ensures |hit| == |inds| && HashAnswer(inds, hash, field) == Tag(Selected(inds, hit), field, NormalizeHash(hash))
    ensures forall k :: 0 <= k < |inds| ==> (hit[k] <==> inds[k].kind == Hash && NormalizeHash(inds[k].normalized) == NormalizeHash(hash))
  {
    hide NormalizeHash, InBucket, Selected;
    hit := HashHitsInOrder(inds, hash);
  }

  // ---- reports ----

  lemma ReportedIff(inds: seq<Indicator>, md: Observed, m: MatchResult)
    ensures m in ScanPacket(inds, md) <==>
            m in ScanHits(inds, md)
            && (m.indicator.role == Allow
                || forall a :: a in ScanHits(inds, md) && a.indicator.role == Allow ==> a.field != m.field || a.value != m.value)
  {
    hide ScanHits, Suppress;
    var all := ScanHits(inds, md);
    SuppressionCounts(all, m);
    assert m in all <==> multiset(all)[m] > 0;
    assert m in Suppress(all) <==> multiset(Suppress(all))[m] > 0;
  }

  /** A hit on a name is reported unless an allow-listed indicator hits that very name; other names play no part. */
  lemma NameReportedIff(inds: seq<Indicator>, md: Observed, i: Indicator, name: string)
    requires name in md.names
    ensures MatchResult(i, "dns.name", NormalizeDomain(name)) in ScanPacket(inds, md) <==>
            i in inds && WatchesName(i, name) && (i.role == Allow || forall a :: a in inds && a.role == Allow ==> !WatchesName(a, name))
  {
    hide NormalizeDomain, ScanPacket, ScanHits, HostOf, LabelsEndWith;
    var m := MatchResult(i, "dns.name", NormalizeDomain(name));
    ReportedIff(inds, md, m);
    HitsAre(inds, md, m);
    forall a: Indicator ensures MatchResult(a, "dns.name", m.value) in ScanHits(inds, md) <==> a in inds && WatchesName(a, name) {
      HitsAre(inds, md, MatchResult(a, "dns.name", m.value));
    }
    forall r | r in ScanHits(inds, md) && r.field == m.field && r.value == m.value ensures r.indicator in inds && WatchesName(r.indicator, name) {
      assert r == MatchResult(r.indicator, "dns.name", m.value);
    }
  }

  /** A hit on the source address is reported unless an allow-listed indicator hits that address; likewise the destination. */
  lemma AddressReportedIff(inds: seq<Indicator>, md: Observed, i: Indicator, source: bool)
    requires md.ipv4.Some?
    ensures var x := if source then md.ipv4.value.0 else md.ipv4.value.1;
            MatchResult(i, if source then "ipv4.source" else "ipv4.destination", Ipv4ToString(x)) in ScanPacket(inds, md) <==>
            i in inds && WatchesAddress(i, x) && (i.role == Allow || forall a :: a in inds && a.role == Allow ==> !WatchesAddress(a, x))
  {
    hide ScanPacket, ScanHits, Ipv4ToString, WatchesAddress, WatchesName;
    var x := if source then md.ipv4.value.0 else md.ipv4.value.1;
    var field := if source then "ipv4.source" else "ipv4.destination";
    var m := MatchResult(i, field, Ipv4ToString(x));
    FieldNames();
    ReportedIff(inds, md, m);
    HitsAre(inds, md, m);
    forall a: Indicator ensures MatchResult(a, field, m.value) in ScanHits(inds, md) <==> a in inds && WatchesAddress(a, x) {
      HitsAre(inds, md, MatchResult(a, field, m.value));
    }
    forall r | r in ScanHits(inds, md) && r.field == m.field && r.value == m.value ensures r.indicator in inds && WatchesAddress(r.indicator, x) {
      assert r == MatchResult(r.indicator, field, m.value);
    }
  }

  lemma FieldNames()
    ensures "ipv4.source" != "ipv4.destination" && "ipv4.source" != "dns.name" && "ipv4.destination" != "dns.name"
  {
    assert "ipv4.source"[5] != "ipv4.destination"[5];
  }

  /** The index reports the same names, in every state that a run of operations reaches. */
  lemma IndexReportsNames(ops: seq<Op>, md: Observed, i: Indicator, name: string)
    requires FilesConsistent(ops) && name in md.names && forall n :: n in md.names ==> Clean(n)
    ensures var inds := Active(Run(INITIAL, ops).records);
            MatchResult(i, "dns.name", NormalizeDomain(name)) in PacketAnswer(inds, md) <==>
            i in inds && WatchesName(i, name) && (i.role == Allow || forall a :: a in inds && a.role == Allow ==> !WatchesName(a, name))
  {
    hide *;
    var inds := Active(Run(INITIAL, ops).records);
    EveryRunRefinesScan(ops, md);
    NameReportedIff(inds, md, i, name);
    SameMembers(PacketAnswer(inds, md), ScanPacket(inds, md), MatchResult(i, "dns.name", NormalizeDomain(name)));
  }

  lemma IndexReportsAddresses(ops: seq<Op>, md: Observed, i: Indicator, source: bool)
    requires FilesConsistent(ops) && md.ipv4.Some? && forall n :: n in md.names ==> Clean(n)
    ensures var inds := Active(Run(INITIAL, ops).records);
            var x := if source then md.ipv4.value.0 else md.ipv4.value.1;
            MatchResult(i, if source then "ipv4.source" else "ipv4.destination", Ipv4ToString(x)) in PacketAnswer(inds, md) <==>
            i in inds && WatchesAddress(i, x) && (i.role == Allow || forall a :: a in inds && a.role == Allow ==> !WatchesAddress(a, x))
  {
    hide *;
    var inds := Active(Run(INITIAL, ops).records);
    var x := if source then md.ipv4.value.0 else md.ipv4.value.1;
    EveryRunRefinesScan(ops, md);
    AddressReportedIff(inds, md, i, source);
    SameMembers(PacketAnswer(inds, md), ScanPacket(inds, md),
                MatchResult(i, if source then "ipv4.source" else "ipv4.destination", Ipv4ToString(x)));
  }

  lemma SameMembers<T>(a: seq<T>, b: seq<T>, x: T)
    requires multiset(a) == multiset(b)
    ensures x in a <==> x in b
  {
    assert x in a <==> x in multiset(a);
    assert x in b <==> x in multiset(b);
  }
}
