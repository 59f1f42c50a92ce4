/** Reading indicator lists: one line to one indicator, and the removal of duplicates. */
module IndicatorText {
  import opened Collections
  import opened Text
  import opened Ipv4
  import opened Indicators
  import opened DomainNames

  predicate ValidLabel(text: string) {
    && text != "" && |text| <= 63
    && text[0] != '-' && text[|text| - 1] != '-'
    && forall i :: 0 <= i < |text| ==> IsAlnum(text[i]) || text[i] == '-'
  }

  predicate IsValidDomain(domain: string) {
    var d := NormalizeDomain(domain);
    && d != "" && |d| <= 253 && '.' in d
    && forall i :: 0 <= i < |Split(d, '.', true)| ==> ValidLabel(Split(d, '.', true)[i])
  }

  predicate KnownHashLength(hash: string) {
    var n := |NormalizeHash(hash)|;
    n == 32 || n == 40 || n == 56 || n == 64 || n == 96 || n == 128
  }

  predicate IsHexString(s: string) { s != "" && forall i :: 0 <= i < |s| ==> IsHexDigit(s[i]) }

  /** A domain, or a wildcard in front of one. */
  predicate DomainLike(value: string) {
    IsValidDomain(value) || (StartsWith(value, "*.") && IsValidDomain(value[2..]))
  }

  function InferType(value: string): Option<IocType> {
    var v := Trim(value);
    var h := NormalizeHash(v);
    var low := ToLower(v);
    if v == "" then None
    else if ParseCidr(v).Some? then Some(if '/' in v then Cidr else Ip)
    else if |h| >= 32 && IsHexString(h) && KnownHashLength(h) then Some(Hash)
    else if StartsWith(low, "http://") || StartsWith(low, "https://") then Some(Url)
    else if DomainLike(v) then Some(Domain)
    else None
  }

  function ParseRole(value: string): Option<ListRole> {
    var v := ToLower(Trim(value));
    if v in ["allow", "allowlist", "whitelist"] then Some(Allow)
    else if v in ["block", "blocklist", "deny", "denylist"] then Some(Block)
    else if v in ["indicator", "ioc", "detect"] then Some(Detect)
    else None
  }

  /** The type that an explicit leading token names, unless that token is itself an indicator. */
  function TokenType(token: string): Option<IocType> {
    var t := ToLower(Trim(token));
    if t == "ip" then Some(Ip)
    else if t == "cidr" then Some(Cidr)
    else if t == "domain" || t == "host" then Some(Domain)
    else if t == "url" then Some(Url)
    else if t in ["hash", "md5", "sha1", "sha256"] then Some(Hash)
    else None
  }

  function Attributes(fields: seq<string>): map<string, string> {
    if fields == [] then map[] else
      var rest := Attributes(fields[..|fields| - 1]);
      var f := Trim(fields[|fields| - 1]);
      var eq := IndexOf(f, '=');
      if eq == |f| then rest else rest[ToLower(Trim(f[..eq])) := StripQuotes(Trim(f[eq + 1..]))]
  }

  function LineFields(line: string): seq<string> {
    var clean := Trim(RemoveComment(line));
    if ',' in clean then Split(clean, ',', false)
    else if '|' in clean then Split(clean, '|', false)
    else Words(clean)
  }

  /** The value read as the given type; `None` when it is not one. */
  function Classify(base: Indicator, value: string): (r: Option<Indicator>)
    requires base.ip.None? && base.cidr.None?
  {
    match base.kind
    case Ip =>
      (match ParseIpv4(value)
       case None => None
       case Some(ip) => Some(base.(ip := Some(ip), normalized := Ipv4ToString(ip))))
    case Cidr =>
      (match ParseCidr(value)
       case None => None
       case Some(r) => Some(base.(cidr := Some(r), normalized := CidrToString(r))))
    case Domain => if DomainLike(value) then Some(base.(normalized := NormalizeDomain(value))) else None
    case Url => Some(base.(normalized := NormalizeUrl(value)))
    case Hash =>
      var h := NormalizeHash(value);
      if KnownHashLength(h) then Some(base.(normalized := h)) else None
    case Unknown => None
  }

  /** Type and position of the value: what the first field shows, or what it names as an explicit token. */
  function KindOf(fields: seq<string>): (r: (Option<IocType>, nat))
    requires fields != []
    ensures r.1 <= 1 && r.1 < |fields|
  {
    var inferred := InferType(fields[0]);
    var token := if inferred.None? && |fields| > 1 then TokenType(fields[0]) else None;
    if token.Some? then (token, 1) else (inferred, 0)
  }

  /** The indicator before its value is read: role, attributes and severity come from the fields behind the value. */
  function LineBase(kind: IocType, rest: seq<string>, raw: string, source: string): (base: Indicator)
    ensures base.kind == kind && base.source == source && base.ip.None? && base.cidr.None?
  {
    var role := if rest != [] && ParseRole(rest[0]).Some? then ParseRole(rest[0]).value else Detect;
    var attributes := Attributes(rest);
    var severity := if "severity" in attributes then ToLower(attributes["severity"]) else "medium";
    Indicator(kind, role, raw, "", source, severity, 0.5, None, None, attributes)
  }

  function ParseLine(line: string, source: string): Option<Indicator> {
    var clean := Trim(RemoveComment(line));
    var fields := LineFields(line);
    if clean == "" || fields == [] then None
    else
      var (kind, at) := KindOf(fields);
      if kind.None? then None
      else Classify(LineBase(kind.value, fields[at + 1..], clean, source), StripQuotes(Trim(fields[at])))
  }

  // ---- what an accepted line guarantees ----

  lemma ValidDomainIsNormal(domain: string)
    requires IsValidDomain(domain)
    ensures NormalForm(NormalizeDomain(domain)) && NoSpaces(NormalizeDomain(domain))
    ensures IsAlnum(NormalizeDomain(domain)[|NormalizeDomain(domain)| - 1])
  {
    hide NormalizeDomain, ValidLabel, Fields, HasWildcard;
    var d := NormalizeDomain(domain);
    NormalizedIsDotless(domain);
    var labels := Fields(d, '.');
    assert labels == Split(d, '.', true);
    LabelsSpell(d, labels);
  }

  /** Valid labels joined by dots: letters, digits and dashes around single dots. */
  lemma {:induction false} LabelsSpell(d: string, labels: seq<string>)
    requires labels != [] && d == Join(labels, '.')
    requires forall i :: 0 <= i < |labels| ==> ValidLabel(labels[i])
    ensures d != "" && IsAlnum(d[0]) && IsAlnum(d[|d| - 1])
    ensures NoSpaces(d) && !HasWildcard(d)
    decreases |labels|
  {
    assert ValidLabel(labels[0]);
    if |labels| > 1 {
      var rest := Join(labels[1..], '.');
      LabelsSpell(rest, labels[1..]);
      assert d == labels[0] + "." + rest;
      assert d[|d| - 1] == rest[|rest| - 1];
      forall i | 0 <= i < |d| ensures !IsSpace(d[i]) {
        if i > |labels[0]| { assert d[i] == rest[i - |labels[0]| - 1]; }
      }
    }
  }

  lemma {:induction false} TrimRightAppend(p: string, s: string)
    requires TrimRight(s) != ""
    ensures TrimRight(p + s) == p + TrimRight(s)
    decreases |s|
  {
    assert (p + s)[|p + s| - 1] == s[|s| - 1];
    if IsSpace(s[|s| - 1]) {
      assert (p + s)[..|p + s| - 1] == p + s[..|s| - 1];
      TrimRightAppend(p, s[..|s| - 1]);
    }
  }

  lemma {:induction false} StripAppend(p: string, s: string)
    requires StripTrailingDots(s) != ""
    ensures StripTrailingDots(p + s) == p + StripTrailingDots(s)
    decreases |s|
  {
    assert (p + s)[|p + s| - 1] == s[|s| - 1];
    if s[|s| - 1] == '.' {
      assert (p + s)[..|p + s| - 1] == p + s[..|s| - 1];
      StripAppend(p, s[..|s| - 1]);
    }
  }

  /** Leading spaces of the tail, and its text ready for the wildcard step. */
  lemma TailParts(tail: string) returns (pad: string, text: string)
    requires IsValidDomain(tail)
    ensures forall i :: 0 <= i < |pad| ==> IsSpace(pad[i])
    ensures Tight(text) && Dotless(text) && text != "" && DropWildcard(text) == NormalizeDomain(tail)
    ensures NormalizeDomain("*." + tail) == DropWildcard("*." + (pad + text))
  {
    hide TrimLeft, TrimRight, StripTrailingDots, DropWildcard, IsValidDomain;
    var a := TrimLeftDecomposes(tail);
    pad := tail[..a];
    var s := TrimLeft(tail);
    var body := StripTrailingDots(TrimRight(s));
    text := ToLower(body);
    BeforeWildcard(tail);
    TailEnds(tail, text);
    TailStarts(tail, body);
    assert tail == pad + s;
    StarNormalizes(pad, s);
  }

  lemma StarNormalizes(pad: string, s: string)
    requires forall i :: 0 <= i < |pad| ==> IsSpace(pad[i])
    requires StripTrailingDots(TrimRight(s)) != ""
    ensures NormalizeDomain("*." + (pad + s)) == DropWildcard("*." + (pad + ToLower(StripTrailingDots(TrimRight(s)))))
  {
    hide TrimLeft, TrimRight, StripTrailingDots, DropWildcard, Trim;
    var p := "*." + pad;
    assert "*." + (pad + s) == p + s;
    assert p[0] == '*';
    WholeTrim(p, s);
    StripAppend(p, TrimRight(s));
    var body := StripTrailingDots(TrimRight(s));
    LowerPadded(pad, body);
  }

  lemma LowerPadded(pad: string, body: string)
    requires forall i :: 0 <= i < |pad| ==> IsSpace(pad[i])
    ensures ToLower(("*." + pad) + body) == "*." + (pad + ToLower(body))
  {}

  lemma TailStarts(tail: string, body: string)
    requires body == StripTrailingDots(Trim(tail)) && body != ""
    ensures !IsSpace(ToLower(body)[0])
  {
    hide Trim;
    var lo, hi := TrimDecomposes(tail);
    assert body[0] == Trim(tail)[0];
  }

  lemma TailEnds(tail: string, text: string)
    requires IsValidDomain(tail) && text == ToLower(StripTrailingDots(Trim(tail)))
    ensures text != "" && !IsSpace(text[|text| - 1])
  {
    ValidDomainIsNormal(tail);
    DropWildcardIsSuffix(text);
  }

  lemma WholeTrim(p: string, s: string)
    requires p != "" && !IsSpace(p[0]) && StripTrailingDots(TrimRight(s)) != ""
    ensures TrimRight(s) != "" && Trim(p + s) == p + TrimRight(s)
  {
    TrimRightAppend(p, s);
  }

  /** A wildcard in front of a valid domain: normalizing the result again reaches that domain and stays there. */
  lemma WildcardDomainIsStable(tail: string)
    requires IsValidDomain(tail)
    ensures NormalizeDomain("*." + tail) != ""
    ensures Stable(NormalizeDomain("*." + tail))
    ensures NormalizeDomain(NormalizeDomain("*." + tail)) == NormalizeDomain(tail)
  {
    hide IsValidDomain;
    var pad, text := TailParts(tail);
    ValidDomainIsNormal(tail);
    FixedIffNormalForm(NormalizeDomain(tail));
    DropAfterStar(pad + text);
    if pad == "" && text[0] == '.' {
      assert pad + text == text;
      assert text[..1] == ".";
    } else {
      PaddedNormalizes(pad, text);
      assert pad != "" ==> (pad + text)[0] == pad[0];
      assert pad == "" ==> pad + text == text;
    }
  }

  lemma DropAfterStar(w: string)
    requires w != ""
    ensures DropWildcard("*." + w) == if w[0] == '.' then w[1..] else w
  {
    assert ("*." + w)[..2] == "*." && ("*." + w)[2..] == w && w[..1] == [w[0]];
  }

  lemma PaddedNormalizes(pad: string, text: string)
    requires forall i :: 0 <= i < |pad| ==> IsSpace(pad[i])
    requires Tight(text) && Dotless(text) && text != ""
    ensures NormalizeDomain(pad + text) == DropWildcard(text)
  {
    TrimLeftPadded(pad, text);
    StripOfDotless(text);
    LowerOfLowered(text);
  }

  /** Why names must be clean: behind a wildcard and a space, the index finds every stable host and the scan none. */
  lemma SpacedNameDisagrees(host: string)
    requires Stable(host) && NormalizeDomain(host) != ""
    ensures var name := "*. " + NormalizeDomain(host);
            IndexMatchesName(host, name) && !DomainMatches(host, name)
  {
    var n := NormalizeDomain(host);
    StableIffNormalForm(host);
    hide NormalizeDomain, DropWildcard, EndsWith;
    var w := " " + n;
    assert "*. " + n == "*." + w;
    StarSpaceNormalizes(n);
    PaddedNormalizes(" ", n);
    DropWildcardIsSuffix(n);
    NotASuffix(n);
  }

  lemma StarSpaceNormalizes(n: string)
    requires NormalForm(n) && n != ""
    ensures NormalizeDomain("*." + (" " + n)) == " " + n
  {
    hide DropWildcard, Trim;
    var name := "*." + (" " + n);
    assert name[0] == '*' && name[|name| - 1] == n[|n| - 1];
    TrimTight(name);
    StripOfDotless(name);
    LowerOfLowered(name);
    DropAfterStar(" " + n);
  }

  lemma NotASuffix(n: string)
    ensures " " + n != n && !EndsWith(" " + n, "." + n)
  {
    assert (" " + n)[0..][0] == ' ' && ("." + n)[0] == '.';
    assert |" " + n| == |n| + 1;
  }

  /** The stored name of every domain indicator that a line can produce is stable. */
  lemma DomainLikeIsStable(value: string)
    requires DomainLike(value)
    ensures Stable(NormalizeDomain(value)) && NormalizeDomain(value) != ""
  {
    hide NormalizeDomain, IsValidDomain;
    if IsValidDomain(value) {
      ValidDomainIsNormal(value);
      FixedIffNormalForm(NormalizeDomain(value));
      NonEmptyDomain(value);
    } else {
      assert value == "*." + value[2..];
      WildcardDomainIsStable(value[2..]);
    }
  }

  lemma NonEmptyDomain(value: string)
    requires IsValidDomain(value)
    ensures NormalizeDomain(value) != ""
  {}

  /** Fields filled per type, normal form never empty, domains stable: what the index relies on. */
  ghost predicate WellParsed(i: Indicator) {
    && i.kind != Unknown && i.normalized != ""
    && (i.kind == Ip ==> i.ip.Some? && i.cidr.None? && i.normalized == Ipv4ToString(i.ip.value))
    && (i.kind == Cidr ==> i.cidr.Some? && i.ip.None? && IsNetwork(i.cidr.value) && i.normalized == CidrToString(i.cidr.value))
    && (i.kind == Domain ==> Stable(i.normalized))
    && (i.kind == Hash ==> KnownHashLength(i.normalized))
  }

  lemma {:induction false} KeepHexFixed(v: string)
    requires forall i :: 0 <= i < |v| ==> IsHexDigit(v[i]) && LowerChar(v[i]) == v[i]
    ensures KeepHex(v) == v
  {
    if v != "" { KeepHexFixed(v[1..]); }
  }

  /** A second hash normalization changes nothing. */
  lemma HashIsStable(value: string)
    ensures NormalizeHash(NormalizeHash(value)) == NormalizeHash(value)
  {
    hide Trim, KeepHex;
    HexFixed(NormalizeHash(value));
  }

  lemma HexFixed(h: string)
    requires forall i :: 0 <= i < |h| ==> IsHexDigit(h[i]) && LowerChar(h[i]) == h[i]
    ensures NormalizeHash(h) == h
  {
    hide Trim, KeepHex;
    assert Tight(h);
    TrimTight(h);
    assert ToLower(h) == h;
    assert IndexOf(h, ':') == |h|;
    KeepHexFixed(h);
  }

  lemma ClassifyIsWellParsed(base: Indicator, value: string)
    requires base.ip.None? && base.cidr.None?
    ensures Classify(base, value).Some? ==>
              var i := Classify(base, value).value;
              WellParsed(i) && i.role == base.role && i.source == base.source && i.kind == base.kind
  {
    hide DomainLike, NormalizeDomain, NormalizeUrl, NormalizeHash, Stable, ParseCidr, ParseIpv4, Masked;
    match base.kind
    case Unknown =>
    case Domain => if DomainLike(value) { DomainLikeIsStable(value); }
    case Hash => if KnownHashLength(NormalizeHash(value)) { HashNotEmpty(value); }
    case Url => UrlNotEmpty(value);
    case Ip => if ParseIpv4(value).Some? { Ipv4Shape(ParseIpv4(value).value); }
    case Cidr => if ParseCidr(value).Some? { NetworkPrints(value); CidrShape(ParseCidr(value).value); }
  }

  lemma NetworkPrints(value: string)
    requires ParseCidr(value).Some?
    ensures IsNetwork(ParseCidr(value).value)
  {}

  lemma HashNotEmpty(value: string)
    requires KnownHashLength(NormalizeHash(value))
    ensures NormalizeHash(value) != ""
  {
    HashIsStable(value);
  }

  lemma UrlNotEmpty(url: string)
    ensures NormalizeUrl(url) != ""
  {}

  lemma LineIsWellParsed(line: string, source: string)
    ensures ParseLine(line, source).Some? ==>
              WellParsed(ParseLine(line, source).value) && ParseLine(line, source).value.source == source
  {
    hide Classify, KindOf, LineBase, LineFields, WellParsed, RemoveComment, Trim, StripQuotes;
    var clean := Trim(RemoveComment(line));
    var fields := LineFields(line);
    if clean != "" && fields != [] {
      var (kind, at) := KindOf(fields);
      if kind.Some? {
        ClassifyIsWellParsed(LineBase(kind.value, fields[at + 1..], clean, source), StripQuotes(Trim(fields[at])));
      }
    }
  }

  // ---- duplicates ----

  datatype IndicatorSet = IndicatorSet(indicators: seq<Indicator>, duplicates: seq<Indicator>)

  function Keys(inds: seq<Indicator>): set<string> { set i | i in inds :: IndicatorKey(i) }

  /** First occurrences by key, in order. */
  function FirstByKey(inds: seq<Indicator>): seq<Indicator> {
    if inds == [] then [] else
      var last := inds[|inds| - 1];
      FirstByKey(inds[..|inds| - 1]) + (if IndicatorKey(last) in Keys(inds[..|inds| - 1]) then [] else [last])
  }

  function LaterByKey(inds: seq<Indicator>): seq<Indicator> {
    if inds == [] then [] else
      var last := inds[|inds| - 1];
      LaterByKey(inds[..|inds| - 1]) + (if IndicatorKey(last) in Keys(inds[..|inds| - 1]) then [last] else [])
  }

  function AcceptedLines(lines: seq<string>, source: string): seq<Indicator> {
    if lines == [] then [] else
      var last := ParseLine(lines[|lines| - 1], source);
      AcceptedLines(lines[..|lines| - 1], source) + (if last.Some? then [last.value] else [])
  }

  /** The state of a deduplicating loop after the indicators `all`. */
  ghost predicate Deduped(all: seq<Indicator>, seen: set<string>, kept: seq<Indicator>, repeated: seq<Indicator>) {
    seen == Keys(all) && kept == FirstByKey(all) && repeated == LaterByKey(all)
  }

  lemma DedupeNothing()
    ensures Deduped([], {}, [], [])
  {}

  lemma DedupeStep(all: seq<Indicator>, seen: set<string>, kept: seq<Indicator>, repeated: seq<Indicator>, ind: Indicator)
    requires Deduped(all, seen, kept, repeated)
    ensures if IndicatorKey(ind) in seen then Deduped(all + [ind], seen, kept, repeated + [ind])
            else Deduped(all + [ind], seen + {IndicatorKey(ind)}, kept + [ind], repeated)
  {
    hide IndicatorKey, Keys, FirstByKey, LaterByKey;
    KeysSnoc(all, ind);
    OneMore(all, ind);
  }

  /** One indicator more goes to the kept ones or to the duplicates. */
  lemma OneMore(all: seq<Indicator>, ind: Indicator)
    ensures if IndicatorKey(ind) in Keys(all)
            then FirstByKey(all + [ind]) == FirstByKey(all) && LaterByKey(all + [ind]) == LaterByKey(all) + [ind]
            else FirstByKey(all + [ind]) == FirstByKey(all) + [ind] && LaterByKey(all + [ind]) == LaterByKey(all)
    ensures IndicatorKey(ind) in Keys(all) ==> Keys(all) + {IndicatorKey(ind)} == Keys(all)
  {
    hide IndicatorKey, Keys;
    assert (all + [ind])[..|all|] == all && (all + [ind])[|all|] == ind;
  }

  /** The reading loop: skip blank and rejected lines, file each key once. */
  method ParseText(text: string, source: string) returns (set': IndicatorSet)
    ensures var all := AcceptedLines(Fields(text, '\n'), source);
            set' == IndicatorSet(FirstByKey(all), LaterByKey(all))
  {
    hide ParseLine, IndicatorKey, Fields, FirstByKey, LaterByKey, Keys, Deduped, RemoveComment;
    var lines := Fields(text, '\n');
    var seen: set<string> := {};
    var indicators, duplicates: seq<Indicator> := [], [];
    ghost var all: seq<Indicator> := [];
    DedupeNothing();
    for n := 0 to |lines|
      invariant all == AcceptedLines(lines[..n], source)
      invariant Deduped(all, seen, indicators, duplicates)
    {
      assert lines[..n + 1][..n] == lines[..n];
      var clean := Trim(RemoveComment(lines[n]));
      if clean == "" { BlankRejected(lines[n], source); continue; }
      var parsed := ParseLine(lines[n], source);
      if parsed.None? { continue; }
      var ind := parsed.value;
      var key := IndicatorKey(ind);
      DedupeStep(all, seen, indicators, duplicates, ind);
      all := all + [ind];
      if key in seen {
        duplicates := duplicates + [ind];
      } else {
        seen := seen + {key};
        indicators := indicators + [ind];
      }
    }
    assert lines[..|lines|] == lines;
    DedupedSet(all, seen, indicators, duplicates);
    return IndicatorSet(indicators, duplicates);
  }

  lemma DedupedSet(all: seq<Indicator>, seen: set<string>, kept: seq<Indicator>, repeated: seq<Indicator>)
    requires Deduped(all, seen, kept, repeated)
    ensures IndicatorSet(kept, repeated) == IndicatorSet(FirstByKey(all), LaterByKey(all))
  {}

  lemma BlankRejected(line: string, source: string)
    requires Trim(RemoveComment(line)) == ""
    ensures ParseLine(line, source).None?
  {}

  function AllIndicators(sets: seq<IndicatorSet>): seq<Indicator> {
    if sets == [] then [] else AllIndicators(sets[..|sets| - 1]) + sets[|sets| - 1].indicators
  }

  /** Merging reads the sets one after the other and keeps the first indicator of each key. */
  method MergeSets(sets: seq<IndicatorSet>) returns (merged: IndicatorSet)
    ensures merged == IndicatorSet(FirstByKey(AllIndicators(sets)), LaterByKey(AllIndicators(sets)))
  {
    hide IndicatorKey, FirstByKey, LaterByKey, Keys, Deduped;
    var seen: set<string> := {};
    var indicators, duplicates: seq<Indicator> := [], [];
    ghost var all: seq<Indicator> := [];
    DedupeNothing();
    for s := 0 to |sets|
      invariant all == AllIndicators(sets[..s])
      invariant Deduped(all, seen, indicators, duplicates)
    {
      assert sets[..s + 1][..s] == sets[..s];
      ghost var start := all;
      var inds := sets[s].indicators;
      assert start + inds[..0] == start;
      for n := 0 to |inds|
        invariant all == start + inds[..n]
        invariant Deduped(all, seen, indicators, duplicates)
      {
        var ind := inds[n];
        var key := IndicatorKey(ind);
        DedupeStep(all, seen, indicators, duplicates, ind);
        all := all + [ind];
        if key in seen {
          duplicates := duplicates + [ind];
        } else {
          seen := seen + {key};
          indicators := indicators + [ind];
        }
      }
      assert inds[..|inds|] == inds;
    }
    assert sets[..|sets|] == sets;
    DedupedSet(all, seen, indicators, duplicates);
    return IndicatorSet(indicators, duplicates);
  }

  lemma {:induction false} KeptKeys(inds: seq<Indicator>)
    ensures DistinctKeys(FirstByKey(inds)) && Keys(FirstByKey(inds)) == Keys(inds)
  {
    hide IndicatorKey, Keys, DistinctKeys, FirstByKey, LaterByKey;
    NothingKept();
    NoKeys();
    if inds != [] {
      var init, last := inds[..|inds| - 1], inds[|inds| - 1];
      KeptKeys(init);
      assert inds == init + [last];
      OneMore(init, last);
      KeysSnoc(init, last);
      KeysSnoc(FirstByKey(init), last);
      if IndicatorKey(last) !in Keys(init) { DistinctSnoc(FirstByKey(init), last); }
    }
  }

  lemma {:induction false} KeptAndRepeated(inds: seq<Indicator>)
    ensures multiset(FirstByKey(inds)) + multiset(LaterByKey(inds)) == multiset(inds)
  {
    hide IndicatorKey, Keys, FirstByKey, LaterByKey;
    NothingKept();
    if inds != [] {
      var init, last := inds[..|inds| - 1], inds[|inds| - 1];
      KeptAndRepeated(init);
      assert inds == init + [last];
      OneMore(init, last);
      MultisetSnoc(init, last);
      MultisetSnoc(FirstByKey(init), last);
      MultisetSnoc(LaterByKey(init), last);
    }
  }

  lemma NothingKept()
    ensures FirstByKey([]) == [] && LaterByKey([]) == []
  {}

  /** Kept indicators have distinct keys, the same keys as the input, and with the duplicates make up the input. */
  lemma DedupeIsExact(inds: seq<Indicator>)
    ensures DistinctKeys(FirstByKey(inds))
    ensures Keys(FirstByKey(inds)) == Keys(inds)
    ensures multiset(FirstByKey(inds)) + multiset(LaterByKey(inds)) == multiset(inds)
    ensures forall i :: i in FirstByKey(inds) ==> i in inds
  {
    hide FirstByKey, LaterByKey, Keys, DistinctKeys, IndicatorKey;
    KeptKeys(inds);
    KeptAndRepeated(inds);
    forall i | i in FirstByKey(inds) ensures i in inds {
      assert i in multiset(FirstByKey(inds)) && multiset(FirstByKey(inds)) <= multiset(inds);
    }
  }

  /** The kept indicators are, in order, those without an earlier one of their key; the repeated ones are the others. */
  lemma {:induction false} KeptAreFirst(inds: seq<Indicator>) returns (kept: seq<bool>, repeated: seq<bool>)
    ensures |kept| == |repeated| == |inds| && FirstByKey(inds) == Selected(inds, kept) && LaterByKey(inds) == Selected(inds, repeated)
    ensures forall k :: 0 <= k < |inds| ==>
              (kept[k] <==> forall j :: 0 <= j < k ==> IndicatorKey(inds[j]) != IndicatorKey(inds[k])) && repeated[k] == !kept[k]
  {
    hide IndicatorKey, Keys, FirstByKey, LaterByKey, Selected;
    kept, repeated := [], [];
    if inds == [] {
      NothingKept();
      NothingSelected<Indicator>();
    } else {
      var init, last := inds[..|inds| - 1], inds[|inds| - 1];
      var before, others := KeptAreFirst(init);
      var mark := IndicatorKey(last) !in Keys(init);
      assert inds == init + [last];
      OneMore(init, last);
      KeyIsSeen(init, IndicatorKey(last));
      SelectedMore(init, before, last, mark);
      SelectedMore(init, others, last, !mark);
      kept, repeated := before + [mark], others + [!mark];
      forall k | 0 <= k < |inds|
        ensures (kept[k] <==> forall j :: 0 <= j < k ==> IndicatorKey(inds[j]) != IndicatorKey(inds[k])) && repeated[k] == !kept[k]
      {
        if k < |init| {
          assert kept[k] == before[k] && repeated[k] == others[k] && inds[k] == init[k];
          assert forall j :: 0 <= j < k ==> inds[j] == init[j];
        } else {
          assert forall j :: 0 <= j < k ==> inds[j] == init[j];
        }
      }
    }
  }

  lemma KeyIsSeen(inds: seq<Indicator>, key: string)
    ensures key in Keys(inds) <==> exists j :: 0 <= j < |inds| && IndicatorKey(inds[j]) == key
  {
    hide IndicatorKey;
    if j :| 0 <= j < |inds| && IndicatorKey(inds[j]) == key { assert inds[j] in inds; }
  }

  ghost predicate DistinctKeys(inds: seq<Indicator>) {
    forall i, j :: 0 <= i < j < |inds| ==> IndicatorKey(inds[i]) != IndicatorKey(inds[j])
  }

  lemma NoKeys()
    ensures DistinctKeys([]) && Keys([]) == {}
  {}

  lemma DistinctSnoc(kept: seq<Indicator>, last: Indicator)
    requires DistinctKeys(kept) && IndicatorKey(last) !in Keys(kept)
    ensures DistinctKeys(kept + [last])
  {
    hide IndicatorKey;
    assert forall i :: 0 <= i < |kept| ==> IndicatorKey(kept[i]) in Keys(kept);
  }

  lemma KeysSnoc(inds: seq<Indicator>, last: Indicator)
    ensures Keys(inds + [last]) == Keys(inds) + {IndicatorKey(last)}
  {
    hide IndicatorKey;
    assert forall i :: i in inds + [last] <==> i in inds || i == last;
  }

  /** A list without repeated keys is kept whole: removing duplicates twice is removing them once. */
  lemma {:induction false} DedupeAgain(inds: seq<Indicator>)
    requires DistinctKeys(inds)
    ensures FirstByKey(inds) == inds && LaterByKey(inds) == []
  {
    hide IndicatorKey, FirstByKey, LaterByKey, Keys;
    if inds == [] {
      NothingKept();
    } else {
      var init, last := inds[..|inds| - 1], inds[|inds| - 1];
      DedupeAgain(init);
      assert inds == init + [last];
      KeyIsSeen(init, IndicatorKey(last));
      OneMore(init, last);
    }
  }

  /** Lines are read one after the other, rejected ones leave nothing. */
  lemma {:induction false} LinesInOrder(a: seq<string>, b: seq<string>, source: string)
    ensures AcceptedLines(a + b, source) == AcceptedLines(a, source) + AcceptedLines(b, source)
    decreases |b|
  {
    hide ParseLine;
    if b == [] {
      assert a + b == a;
    } else {
      LinesInOrder(a, b[..|b| - 1], source);
      assert (a + b)[..|a + b| - 1] == a + b[..|b| - 1];
    }
  }

  lemma OneLine(line: string, source: string)
    ensures AcceptedLines([line], source) == if ParseLine(line, source).Some? then [ParseLine(line, source).value] else []
  {
    hide ParseLine;
    assert [line][..0] == [];
  }

  lemma {:induction false} SetsInOrder(a: seq<IndicatorSet>, b: seq<IndicatorSet>)
    ensures AllIndicators(a + b) == AllIndicators(a) + AllIndicators(b)
    ensures forall s :: AllIndicators([s]) == s.indicators
    decreases |b|
  {
    forall s ensures AllIndicators([s]) == s.indicators { assert [s][..0] == []; }
    if b == [] {
      assert a + b == a;
    } else {
      SetsInOrder(a, b[..|b| - 1]);
      assert (a + b)[..|a + b| - 1] == a + b[..|b| - 1];
    }
  }

  lemma {:induction false} AcceptedAreWellParsed(lines: seq<string>, source: string)
    ensures forall i :: i in AcceptedLines(lines, source) ==> WellParsed(i)
  {
    hide ParseLine, WellParsed;
    if lines != [] {
      AcceptedAreWellParsed(lines[..|lines| - 1], source);
      LineIsWellParsed(lines[|lines| - 1], source);
    }
  }
}
