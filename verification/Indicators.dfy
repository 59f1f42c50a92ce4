/** Indicators, their normal forms, and the linear scan over an indicator list. */
module Indicators {
  import opened Text
  import opened Ipv4

  datatype IocType = Ip | Cidr | Domain | Url | Hash | Unknown

  datatype ListRole = Detect | Allow | Block

  datatype IndicatorFields = Indicator(
    kind: IocType, role: ListRole, raw: string, normalized: string, source: string,
    severity: string, confidence: real, ip: Option<U32>, cidr: Option<CidrRange>,
    attributes: map<string, string>)

  /** A range never fixes more than 32 bits; the parser guarantees it and the trie shifts by it. */
  type Indicator = i: IndicatorFields | i.cidr.Some? ==> i.cidr.value.prefix <= 32
    witness Indicator(Unknown, Detect, "", "", "", "medium", 0.5, None, None, map[])

  datatype MatchResult = MatchResult(indicator: Indicator, field: string, value: string)

  /** The part of a packet's metadata that indicators are matched against. */
  datatype Observed = Observed(ipv4: Option<(U32, U32)>, names: seq<string>)

  function TypeName(t: IocType): string {
    match t
    case Ip => "ip"
    case Cidr => "cidr"
    case Domain => "domain"
    case Url => "url"
    case Hash => "hash"
    case Unknown => "unknown"
  }

  function RoleName(r: ListRole): string {
    match r
    case Allow => "allow"
    case Block => "block"
    case Detect => "indicator"
  }

  function IndicatorKey(i: Indicator): string {
    TypeName(i.kind) + ":" + RoleName(i.role) + ":" + i.normalized
  }

  lemma KeyIsInjective(a: Indicator, b: Indicator)
    ensures IndicatorKey(a) == IndicatorKey(b) <==> a.kind == b.kind && a.role == b.role && a.normalized == b.normalized
  {
    var ta, tb := TypeName(a.kind), TypeName(b.kind);
    var ra, rb := RoleName(a.role) + ":" + a.normalized, RoleName(b.role) + ":" + b.normalized;
    assert IndicatorKey(a) == ta + ":" + ra && IndicatorKey(b) == tb + ":" + rb;
    if IndicatorKey(a) == IndicatorKey(b) {
      FirstDelimiter(ta, ra, tb, rb, ':');
      FirstDelimiter(RoleName(a.role), a.normalized, RoleName(b.role), b.normalized, ':');
    }
  }

  // ---- normal forms ----

  function StripTrailingDots(v: string): (r: string)
    ensures r <= v && (r != "" ==> r[|r| - 1] != '.')
  {
    if v != "" && v[|v| - 1] == '.' then StripTrailingDots(v[..|v| - 1]) else v
  }

  /** The last two steps of the normalization: one leading `*.`, then one leading dot. */
  function DropWildcard(v: string): string {
    var w := if StartsWith(v, "*.") then v[2..] else v;
    if StartsWith(w, ".") then w[1..] else w
  }

  function NormalizeDomain(domain: string): string {
    DropWildcard(ToLower(StripTrailingDots(Trim(domain))))
  }

  function KeepHex(v: string): (r: string)
    ensures forall i :: 0 <= i < |r| ==> IsHexDigit(r[i]) && LowerChar(r[i]) == r[i]
  {
    if v == "" then "" else (if IsHexDigit(v[0]) then [LowerChar(v[0])] else []) + KeepHex(v[1..])
  }

  function NormalizeHash(value: string): string {
    var v := ToLower(Trim(value));
    var colon := IndexOf(v, ':');
    KeepHex(if colon < |v| then v[colon + 1..] else v)
  }

  function CollapseSlashes(path: string): string {
    if |path| < 2 then path
    else if path[0] == '/' && path[1] == '/' then CollapseSlashes(path[1..])
    else [path[0]] + CollapseSlashes(path[1..])
  }

  /** Everything up to the first slash after the scheme; a port stays in. */
  function UrlHost(normalized: string): string {
    var scheme := FindText(normalized, "://");
    var rest := if scheme < |normalized| then normalized[scheme + 3..] else normalized;
    rest[..IndexOf(rest, '/')]
  }

  function ShownPort(scheme: string, port: string): string {
    if (scheme == "http" && port == "80") || (scheme == "https" && port == "443") then "" else port
  }

  /** The host normalized, and a port behind its last colon; brackets around the host keep everything together. */
  function ShownHost(scheme: string, host: string): string {
    var colon := LastIndexOf(host, ':');
    if colon >= 0 && ']' !in host then
      var port := ShownPort(scheme, host[colon + 1..]);
      NormalizeDomain(host[..colon]) + (if port == "" then "" else ":" + port)
    else NormalizeDomain(host)
  }

  function NormalizeUrl(url: string): string {
    var v := Trim(url);
    var mark := FindText(v, "://");
    var scheme := if mark < |v| then ToLower(v[..mark]) else "http";
    var rest := if mark < |v| then v[mark + 3..] else v;
    var slash := IndexOf(rest, '/');
    var path := if slash == |rest| then "/" else rest[slash..];
    var authority := rest[..slash];
    scheme + "://" + ShownHost(scheme, authority[LastIndexOf(authority, '@') + 1..]) + CollapseSlashes(path)
  }

  predicate DomainMatches(indicatorDomain: string, observedDomain: string) {
    var ind, obs := NormalizeDomain(indicatorDomain), NormalizeDomain(observedDomain);
    ind != "" && obs != "" && (obs == ind || EndsWith(obs, "." + ind))
  }

  /** The name that a domain or URL indicator watches, as stored. */
  function HostOf(i: Indicator): string {
    if i.kind == Url then UrlHost(i.normalized) else i.normalized
  }

  // ---- the linear scan ----

  /** At most one of the two tests can succeed: they ask for different kinds. */
  predicate ScanHitsIp(i: Indicator, ip: U32) {
    || (i.kind == Ip && i.ip == Some(ip))
    || (i.kind == Cidr && i.cidr.Some? && Contains(i.cidr.value, ip))
  }

  predicate ScanHitsName(i: Indicator, name: string) {
    (i.kind == Domain || i.kind == Url) && DomainMatches(HostOf(i), name)
  }

  function IpMatches(inds: seq<Indicator>, ip: U32, field: string): seq<MatchResult> {
    if inds == [] then [] else
      var last := inds[|inds| - 1];
      IpMatches(inds[..|inds| - 1], ip, field)
      + (if ScanHitsIp(last, ip) then [MatchResult(last, field, Ipv4ToString(ip))] else [])
  }

  function NameMatches(inds: seq<Indicator>, name: string): seq<MatchResult> {
    if inds == [] then [] else
      var last := inds[|inds| - 1];
      NameMatches(inds[..|inds| - 1], name)
      + (if ScanHitsName(last, name) then [MatchResult(last, "dns.name", NormalizeDomain(name))] else [])
  }

  function AllNameMatches(inds: seq<Indicator>, names: seq<string>): seq<MatchResult> {
    if names == [] then [] else
      AllNameMatches(inds, names[..|names| - 1]) + NameMatches(inds, names[|names| - 1])
  }

  function ScanHits(inds: seq<Indicator>, md: Observed): seq<MatchResult> {
    (if md.ipv4.None? then [] else
       IpMatches(inds, md.ipv4.value.0, "ipv4.source") + IpMatches(inds, md.ipv4.value.1, "ipv4.destination"))
    + AllNameMatches(inds, md.names)
  }

  predicate AllowedBy(a: MatchResult, m: MatchResult) {
    a.indicator.role == Allow && a.field == m.field && a.value == m.value
  }

  predicate Suppressed(all: seq<MatchResult>, m: MatchResult) {
    m.indicator.role != Allow && exists a :: a in all && AllowedBy(a, m)
  }

  /** The results of `part` that no allow-listed result of `all` silences, in order. */
  function KeepUnsuppressed(all: seq<MatchResult>, part: seq<MatchResult>): seq<MatchResult> {
    if part == [] then [] else
      var last := part[|part| - 1];
      KeepUnsuppressed(all, part[..|part| - 1]) + (if Suppressed(all, last) then [] else [last])
  }

  function Suppress(all: seq<MatchResult>): seq<MatchResult> { KeepUnsuppressed(all, all) }

  function ScanPacket(inds: seq<Indicator>, md: Observed): seq<MatchResult> {
    Suppress(ScanHits(inds, md))
  }

  /** The allow-list filter shared by the scan and the index: two nested loops. */
  method SuppressLoop(all: seq<MatchResult>) returns (filtered: seq<MatchResult>)
    ensures filtered == Suppress(all)
    ensures forall m :: multiset(filtered)[m] ==
                        if m.indicator.role == Allow || forall a :: a in all && a.indicator.role == Allow ==> a.field != m.field || a.value != m.value
                        then multiset(all)[m] else 0
  {
    filtered := [];
    for i := 0 to |all|
      invariant filtered == KeepUnsuppressed(all, all[..i])
    {
      var m := all[i];
      var allowed := false;
      for j := 0 to |all|
        invariant !allowed && forall k :: 0 <= k < j ==> !AllowedBy(all[k], m)
      {
        if AllowedBy(all[j], m) { allowed := true; break; }
      }
      assert allowed <==> exists a :: a in all && AllowedBy(a, m);
      if !allowed || m.indicator.role == Allow { filtered := filtered + [m]; }
      assert all[..i + 1][..i] == all[..i];
    }
    assert all[..|all|] == all;
    forall m ensures multiset(filtered)[m] ==
                     if m.indicator.role == Allow || forall a :: a in all && a.indicator.role == Allow ==> a.field != m.field || a.value != m.value
                     then multiset(all)[m] else 0
    {
      KeepCounts(all, all, m);
    }
  }

  method AddIpMatches(inds: seq<Indicator>, ip: U32, field: string, found: seq<MatchResult>) returns (out: seq<MatchResult>)
    ensures out == found + IpMatches(inds, ip, field)
  {
    hide Contains;
    var value := Ipv4ToString(ip);
    out := found;
    for i := 0 to |inds|
      invariant out == found + IpMatches(inds[..i], ip, field)
    {
      var ind := inds[i];
      assert inds[..i + 1][..i] == inds[..i];
      if ind.kind == Ip && ind.ip.Some? && ind.ip.value == ip { out := out + [MatchResult(ind, field, value)]; }
      if ind.kind == Cidr && ind.cidr.Some? && Contains(ind.cidr.value, ip) { out := out + [MatchResult(ind, field, value)]; }
    }
    assert inds[..|inds|] == inds;
  }

  method AddNameMatches(inds: seq<Indicator>, name: string, found: seq<MatchResult>) returns (out: seq<MatchResult>)
    ensures out == found + NameMatches(inds, name)
  {
    hide DomainMatches, NormalizeDomain, UrlHost;
    out := found;
    for i := 0 to |inds|
      invariant out == found + NameMatches(inds[..i], name)
    {
      var ind := inds[i];
      assert inds[..i + 1][..i] == inds[..i];
      if ind.kind == Domain && DomainMatches(ind.normalized, name) {
        out := out + [MatchResult(ind, "dns.name", NormalizeDomain(name))];
      }
      if ind.kind == Url && DomainMatches(UrlHost(ind.normalized), name) {
        out := out + [MatchResult(ind, "dns.name", NormalizeDomain(name))];
      }
    }
    assert inds[..|inds|] == inds;
  }

  method ScanPacketLoop(inds: seq<Indicator>, md: Observed) returns (filtered: seq<MatchResult>)
    ensures filtered == ScanPacket(inds, md)
  {
    var out: seq<MatchResult> := [];
    if md.ipv4.Some? {
      out := AddIpMatches(inds, md.ipv4.value.0, "ipv4.source", out);
      out := AddIpMatches(inds, md.ipv4.value.1, "ipv4.destination", out);
    }
    ghost var ipPart := out;
    for i := 0 to |md.names|
      invariant out == ipPart + AllNameMatches(inds, md.names[..i])
    {
      assert md.names[..i + 1][..i] == md.names[..i];
      out := AddNameMatches(inds, md.names[i], out);
    }
    assert md.names[..|md.names|] == md.names;
    assert out == ScanHits(inds, md);
    filtered := SuppressLoop(out);
  }

  /** Suppression commutes with reordering: it looks at the list as a bag. */
  lemma SuppressOnBags(a: seq<MatchResult>, b: seq<MatchResult>)
    requires multiset(a) == multiset(b)
    ensures multiset(Suppress(a)) == multiset(Suppress(b))
  {
    forall m ensures m in a <==> m in b {
      assert m in a <==> m in multiset(a);
      assert m in b <==> m in multiset(b);
    }
    forall m ensures multiset(Suppress(a))[m] == multiset(Suppress(b))[m] {
      KeepCounts(a, a, m);
      KeepCounts(b, b, m);
    }
  }

  lemma {:induction false} KeepCounts(all: seq<MatchResult>, part: seq<MatchResult>, m: MatchResult)
    ensures multiset(KeepUnsuppressed(all, part))[m] == if Suppressed(all, m) then 0 else multiset(part)[m]
  {
    if part != [] {
      KeepCounts(all, part[..|part| - 1], m);
      assert part == part[..|part| - 1] + [part[|part| - 1]];
    }
  }
}
