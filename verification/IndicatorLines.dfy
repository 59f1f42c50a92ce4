/** What a written indicator line reads as: type, value, role, severity and attributes. */
module IndicatorLines {
  import opened Text
  import opened Ipv4
  import opened Indicators
  import opened DomainNames
  import opened IndicatorText
  import opened UrlLines
  import opened ExprMeaning
  import opened Spellings
  import RuleHeader

  // ---- fields ----

  /** Nothing of the line is quoted or a comment. */
  predicate PlainLine(line: string) {
    forall k :: 0 <= k < |line| ==> line[k] != '"' && line[k] != '\'' && !CommentAt(line, k)
  }

  predicate PlainField(f: string) { f != "" && Tight(f) && ',' !in f }

  predicate PlainFields(fields: seq<string>) { forall i :: 0 <= i < |fields| ==> PlainField(fields[i]) }

  lemma PlainLineKept(line: string)
    requires PlainLine(line)
    ensures RemoveComment(line) == line
  {
    hide CommentStart, CommentAt;
    OutsideSegment(line, 0, |line|);
    EndOfLine(line);
    assert line[..|line|] == line;
  }

  lemma {:induction false} JoinedTight(fields: seq<string>, d: char)
    requires fields != [] && forall i :: 0 <= i < |fields| ==> fields[i] != "" && Tight(fields[i])
    ensures Join(fields, d) != "" && Tight(Join(fields, d))
    decreases |fields|
  {
    if |fields| > 1 {
      JoinedTight(fields[1..], d);
      var rest := Join(fields[1..], d);
      assert Join(fields, d) == fields[0] + [d] + rest;
    }
  }

  /** A line of two or more fields between commas is cut into exactly these. */
  lemma FieldsAreRead(fields: seq<string>)
    requires |fields| >= 2 && PlainFields(fields) && PlainLine(Join(fields, ','))
    ensures var line := Join(fields, ','); Trim(RemoveComment(line)) == line && line != "" && LineFields(line) == fields
  {
    hide Fields, Trim, RemoveComment, PlainLine;
    var line := Join(fields, ',');
    PlainLineKept(line);
    JoinedTight(fields, ',');
    TrimTight(line);
    assert line == fields[0] + "," + Join(fields[1..], ',');
    assert line[|fields[0]|] == ',';
    assert forall i :: 0 <= i < |fields| ==> PlainField(fields[i]) && ',' !in fields[i] && fields[i] != "";
    FieldsOfJoin(fields, ',');
    NonEmptyKeepsAll(fields);
  }

  /** Without a comma, bars cut the line. */
  lemma BarFieldsAreRead(fields: seq<string>)
    requires |fields| >= 2 && PlainFields(fields) && PlainLine(Join(fields, '|')) && ',' !in Join(fields, '|')
    requires forall i :: 0 <= i < |fields| ==> '|' !in fields[i]
    ensures LineFields(Join(fields, '|')) == fields
  {
    hide Fields, Trim, RemoveComment, PlainLine;
    var line := Join(fields, '|');
    PlainLineKept(line);
    JoinedTight(fields, '|');
    TrimTight(line);
    assert line == fields[0] + "|" + Join(fields[1..], '|');
    assert line[|fields[0]|] == '|';
    assert forall i :: 0 <= i < |fields| ==> PlainField(fields[i]) && fields[i] != "";
    FieldsOfJoin(fields, '|');
    NonEmptyKeepsAll(fields);
  }

  /** Without both, spaces do. */
  lemma WordFieldsAreRead(words: seq<string>)
    requires words != [] && PlainLine(Join(words, ' ')) && ',' !in Join(words, ' ') && '|' !in Join(words, ' ')
    requires forall i :: 0 <= i < |words| ==> words[i] != "" && NoSpaces(words[i])
    ensures LineFields(Join(words, ' ')) == words
  {
    hide Words, Trim, RemoveComment, PlainLine;
    var line := Join(words, ' ');
    PlainLineKept(line);
    JoinedTight(words, ' ');
    TrimTight(line);
    WordsJoined(words);
  }

  lemma {:induction false} WordsJoined(words: seq<string>)
    requires forall i :: 0 <= i < |words| ==> words[i] != "" && NoSpaces(words[i])
    ensures Words(Join(words, ' ')) == words
  {
    hide Words;
    NoWords();
    if |words| == 1 {
      assert words[0] + "" == words[0];
      WordFirst(words[0], "");
    } else if |words| > 1 {
      var rest := Join(words[1..], ' ');
      WordsJoined(words[1..]);
      WordFirst(words[0], " " + rest);
      RuleHeader.WordsAfterSpace(rest);
      assert Join(words, ' ') == words[0] + (" " + rest);
      assert words == [words[0]] + words[1..];
    }
  }

  lemma FieldIsItself(f: string)
    requires f != "" && Tight(f) && f[0] != '"' && f[0] != '\''
    ensures StripQuotes(Trim(f)) == f
  {
    TrimTight(f);
  }

  // ---- roles ----

  /** The words for each role, in any letter case; no other word names one. */
  lemma RoleWords(word: string)
    ensures var w := ToLower(Trim(word));
            && (ParseRole(word) == Some(Allow) <==> w == "allow" || w == "allowlist" || w == "whitelist")
            && (ParseRole(word) == Some(Block) <==> w == "block" || w == "blocklist" || w == "deny" || w == "denylist")
            && (ParseRole(word) == Some(Detect) <==> w == "indicator" || w == "ioc" || w == "detect")
  {
    hide ToLower, Trim;
    FirstLetters();
  }

  lemma FirstLetters()
    ensures "allow"[0] == 'a' && "allowlist"[0] == 'a' && "whitelist"[0] == 'w'
    ensures "block"[0] == 'b' && "blocklist"[0] == 'b' && "deny"[0] == 'd' && "denylist"[0] == 'd' && "detect"[0] == 'd'
    ensures "deny"[2] == "denylist"[2] == 'n' && "detect"[2] == 't' && "indicator"[0] == 'i' && "ioc"[0] == 'i'
  {}

  lemma NoRoleWithEquals(f: string)
    requires Tight(f) && '=' in f
    ensures ParseRole(f).None?
  {
    TrimTight(f);
    var i :| 0 <= i < |f| && f[i] == '=';
    assert ToLower(f)[i] == '=';
  }

  // ---- attributes ----

  datatype Pair = Pair(key: string, value: string)

  predicate PlainPair(p: Pair) {
    && p.key != "" && Tight(p.key) && '=' !in p.key && ToLower(p.key) == p.key
    && p.value != "" && Tight(p.value) && p.value[0] != '"' && p.value[0] != '\''
  }

  function PairText(p: Pair): string { p.key + "=" + p.value }

  function PairTexts(pairs: seq<Pair>): (r: seq<string>)
    ensures |r| == |pairs| && forall i :: 0 <= i < |r| ==> r[i] == PairText(pairs[i])
  {
    seq(|pairs|, i requires 0 <= i < |pairs| => PairText(pairs[i]))
  }

  lemma PairReads(p: Pair)
    requires PlainPair(p)
    ensures var f := PairText(p);
            var eq := IndexOf(f, '=');
            && Trim(f) == f && eq == |p.key| < |f|
            && ToLower(Trim(f[..eq])) == p.key && StripQuotes(Trim(f[eq + 1..])) == p.value
  {
    hide Trim, ToLower, IndexOf;
    var f := PairText(p);
    assert f[|f| - 1] == p.value[|p.value| - 1];
    TrimTight(f);
    assert forall i :: 0 <= i < |p.key| ==> f[i] == p.key[i];
    assert f[|p.key|] == '=';
    assert IndexOf(f, '=') == |p.key|;
    assert f[..|p.key|] == p.key && f[|p.key| + 1..] == p.value;
    TrimTight(p.key);
    FieldIsItself(p.value);
  }

  predicate LastAt(pairs: seq<Pair>, i: nat) { i < |pairs| && forall j :: i < j < |pairs| ==> pairs[j].key != pairs[i].key }

  /** The map holds exactly the given keys, each with its last value. */
  ghost predicate Holds(m: map<string, string>, pairs: seq<Pair>) {
    && (forall k :: k in m <==> exists i :: 0 <= i < |pairs| && pairs[i].key == k)
    && (forall i: nat :: LastAt(pairs, i) ==> pairs[i].key in m && m[pairs[i].key] == pairs[i].value)
  }

  lemma HoldsMore(m: map<string, string>, pairs: seq<Pair>, p: Pair)
    requires Holds(m, pairs)
    ensures Holds(m[p.key := p.value], pairs + [p])
  {
    var more, m' := pairs + [p], m[p.key := p.value];
    forall k ensures k in m' <==> exists i :: 0 <= i < |more| && more[i].key == k {
      if k == p.key { assert more[|pairs|].key == k; }
      if i :| 0 <= i < |pairs| && pairs[i].key == k { assert more[i].key == k; }
    }
    forall i: nat | LastAt(more, i) ensures more[i].key in m' && m'[more[i].key] == more[i].value {
      if i < |pairs| {
        assert more[|pairs|].key != more[i].key;
        assert forall j :: i < j < |pairs| ==> pairs[j] == more[j];
        assert LastAt(pairs, i);
      }
    }
  }

  /** A role word or other field without an equals sign adds nothing. */
  lemma {:induction false} AttributesRead(front: seq<string>, pairs: seq<Pair>)
    requires |front| <= 1 && (front != [] ==> Tight(front[0]) && '=' !in front[0])
    requires forall p :: p in pairs ==> PlainPair(p)
    ensures Holds(Attributes(front + PairTexts(pairs)), pairs)
    decreases |pairs|
  {
    hide Trim, PlainPair, PairText, Holds, IndexOf, ToLower, StripQuotes, Attributes;
    if pairs == [] {
      assert front + PairTexts(pairs) == front;
      NoAttributes(front);
    } else {
      var init, last := pairs[..|pairs| - 1], pairs[|pairs| - 1];
      AttributesRead(front, init);
      PairReads(last);
      var all := front + PairTexts(init);
      assert front + PairTexts(pairs) == all + [PairText(last)];
      AttributesSnoc(all, PairText(last), last);
      HoldsMore(Attributes(all), init, last);
      assert pairs == init + [last];
    }
  }

  lemma NoAttributes(front: seq<string>)
    requires |front| <= 1 && (front != [] ==> Tight(front[0]) && '=' !in front[0])
    ensures Holds(Attributes(front), [])
  {
    if front != [] {
      TrimTight(front[0]);
      assert front[..0] == [];
      assert IndexOf(front[0], '=') == |front[0]|;
    }
  }

  lemma AttributesSnoc(all: seq<string>, f: string, p: Pair)
    requires var eq := IndexOf(f, '=');
             Trim(f) == f && eq < |f| && ToLower(Trim(f[..eq])) == p.key && StripQuotes(Trim(f[eq + 1..])) == p.value
    ensures Attributes(all + [f]) == Attributes(all)[p.key := p.value]
  {
    hide Trim, IndexOf, ToLower, StripQuotes;
    assert (all + [f])[..|all|] == all;
  }

  // ---- values ----

  datatype Watched = Address(x: U32) | Range(x: U32, prefix: U8) | Name(domain: string) | Digest(hash: string) | Link(url: string)

  predicate PlainWord(s: string) { s != "" && Tight(s) && s[0] != '"' && s[0] != '\'' }

  predicate WellWritten(w: Watched) {
    match w
    case Address(_) => true
    case Range(_, prefix) => prefix <= 32
    case Name(domain) => PlainWord(domain) && DomainLike(domain)
    case Digest(hash) => |hash| in {32, 40, 56, 64, 96, 128} && forall i :: 0 <= i < |hash| ==> IsHexDigit(hash[i])
    case Link(url) => PlainWord(url)
  }

  function ValueText(w: Watched): string {
    match w
    case Address(x) => Ipv4ToString(x)
    case Range(x, prefix) => Ipv4ToString(x) + "/" + Decimal(prefix)
    case Name(domain) => domain
    case Digest(hash) => hash
    case Link(url) => url
  }

  function KindName(w: Watched): IocType {
    match w
    case Address(_) => Ip
    case Range(_, _) => Cidr
    case Name(_) => Domain
    case Digest(_) => Hash
    case Link(_) => Url
  }

  /** The stored form of the value. */
  ghost predicate StoredAs(w: Watched, i: Indicator)
    requires WellWritten(w)
  {
    && i.kind == KindName(w)
    && match w
       case Address(x) => i.ip == Some(x) && i.cidr == None && i.normalized == Ipv4ToString(x)
       case Range(x, prefix) =>
         i.ip == None && i.cidr.Some? && i.cidr.value.prefix == prefix && IsNetwork(i.cidr.value)
         && Bits(i.cidr.value.network)[..prefix] == Bits(x)[..prefix] && i.normalized == CidrToString(i.cidr.value)
       case Name(domain) => i.ip == None && i.cidr == None && i.normalized == NormalizeDomain(domain)
       case Digest(hash) => i.ip == None && i.cidr == None && i.normalized == ToLower(hash)
       case Link(url) => i.ip == None && i.cidr == None && i.normalized == NormalizeUrl(url)
  }

  lemma NetworkOf(x: U32, prefix: U8)
    requires prefix <= 32
    ensures var text := Ipv4ToString(x) + "/" + Decimal(prefix);
            ParseCidr(text).Some? && ParseCidr(text).value.prefix == prefix
            && Bits(ParseCidr(text).value.network)[..prefix] == Bits(x)[..prefix]
    ensures ParseCidr(Ipv4ToString(x)) == Some(CidrRange(x, 32))
  {
    hide Ipv4ToString, Decimal, ParseCidr, Masked, Bits;
    AddressFormReads(Network(x, prefix));
    AddressFormReads(Host(x));
    MaskTwice(x, prefix);
    SameLeadingBits(x, prefix);
  }

  lemma SameLeadingBits(x: U32, prefix: U8)
    requires prefix <= 32
    ensures Masked(x, prefix) < 0x1_0000_0000 && Bits(Masked(x, prefix))[..prefix] == Bits(x)[..prefix]
  {
    hide Masked, Bits;
    MaskTwice(x, prefix);
    ContainsIsPrefixMatch(CidrRange(x, prefix), Masked(x, prefix));
  }

  lemma HexIsItself(h: string)
    requires h != "" && forall i :: 0 <= i < |h| ==> IsHexDigit(h[i])
    ensures NormalizeHash(h) == ToLower(h) && Trim(h) == h
  {
    hide NormalizeHash, ToLower, Trim;
    HashSpelling("", "", h, "");
    assert "" + h + "" == h;
    TrimTight(h);
  }

  lemma LowerHexIsHex(h: string)
    requires forall i :: 0 <= i < |h| ==> IsHexDigit(h[i])
    ensures forall i :: 0 <= i < |h| ==> IsHexDigit(ToLower(h)[i])
  {
    forall i | 0 <= i < |h| ensures IsHexDigit(ToLower(h)[i]) { LowerHex(h[i]); }
  }

  lemma ValueIsStored(base: Indicator, w: Watched)
    requires base.ip.None? && base.cidr.None? && WellWritten(w) && base.kind == KindName(w)
    ensures Classify(base, ValueText(w)).Some?
    ensures var i := Classify(base, ValueText(w)).value;
            StoredAs(w, i) && i.role == base.role && i.raw == base.raw && i.source == base.source && i.severity == base.severity
            && i.attributes == base.attributes
  {
    hide Ipv4ToString, Decimal, ParseCidr, ParseIpv4, CidrToString, NormalizeDomain, NormalizeUrl, NormalizeHash, DomainLike, Bits, ToLower;
    match w
    case Address(x) => Ipv4RoundTrip(x);
    case Range(x, prefix) => NetworkOf(x, prefix);
    case Name(domain) =>
    case Digest(hash) => HexIsItself(hash); LowerHexIsHex(hash); HexIsItself(ToLower(hash));
    case Link(url) =>
  }

  // ---- inferred types ----

  lemma NoAddressWithoutDot(v: string)
    requires v != "" && '.' !in v && '/' !in v && Trim(v) == v
    ensures ParseCidr(v).None?
  {
    hide Trim;
    NoDelimiter(v, '/');
    NoDelimiter(v, '.');
    assert ParseIpv4(v).None?;
  }

  /** Addresses, ranges and hashes are recognized by their own look. */
  lemma TypeIsInferred(w: Watched)
    requires WellWritten(w) && (w.Address? || w.Range? || w.Digest?)
    ensures InferType(ValueText(w)) == Some(KindName(w))
  {
    hide Ipv4ToString, Decimal, ParseCidr, NormalizeHash, DomainLike, Bits, ToLower, Trim, StartsWith;
    var t := ValueText(w);
    match w
    case Address(x) =>
      NetworkOf(x, 32);
      Ipv4Shape(x);
      TrimTight(t);
    case Range(x, prefix) =>
      NetworkOf(x, prefix);
      Ipv4Shape(x);
      assert t[|t| - 1] == Decimal(prefix)[|Decimal(prefix)| - 1];
      TrimTight(t);
      assert t[|Ipv4ToString(x)|] == '/';
    case Digest(hash) =>
      HexIsItself(hash);
      LowerHexIsHex(hash);
      HexIsItself(ToLower(hash));
      LowerIdempotent(hash);
      NoAddressWithoutDot(hash);
  }

  /** A domain is recognized unless it reads as an address or its hexadecimal digits make up the length of a hash. */
  lemma DomainIsInferredIff(domain: string)
    requires Tight(domain) && domain != "" && DomainLike(domain)
    ensures InferType(domain) == Some(Domain) <==>
            ParseCidr(domain).None? && |NormalizeHash(domain)| !in {32, 40, 56, 64, 96, 128}
  {
    hide ParseCidr, NormalizeHash, DomainLike, ToLower, Trim, StartsWith;
    TrimTight(domain);
    HashIsStable(domain);
    HashIsHex(domain);
    if StartsWith(ToLower(domain), "http://") || StartsWith(ToLower(domain), "https://") { UrlIsNoDomain(domain); }
  }

  lemma HashIsHex(value: string)
    ensures forall i :: 0 <= i < |NormalizeHash(value)| ==> IsHexDigit(NormalizeHash(value)[i])
  {}

  lemma UrlIsNoDomain(v: string)
    requires Tight(v) && LooksLikeUrl(v)
    ensures !DomainLike(v)
  {
    hide NormalizeDomain, ToLower, Trim, ValidLabel, Split;
    var m := UrlSlashes(v);
    assert v[0] != '*' by { assert ToLower(v[..m])[0] == LowerChar(v[0]); }
    if IsValidDomain(v) {
      NormalizeKeepsMark(v, '/');
      NoSlashInDomain(v);
    }
  }

  lemma NoSlashInDomain(v: string)
    requires IsValidDomain(v)
    ensures '/' !in NormalizeDomain(v)
  {
    hide NormalizeDomain, Fields;
    var d := NormalizeDomain(v);
    forall i | 0 <= i < |Fields(d, '.')| ensures '/' !in Fields(d, '.')[i] { assert ValidLabel(Split(d, '.', true)[i]); }
    JoinHasNoSlash(Fields(d, '.'));
  }

  lemma {:induction false} JoinHasNoSlash(parts: seq<string>)
    requires forall i :: 0 <= i < |parts| ==> '/' !in parts[i]
    ensures '/' !in Join(parts, '.')
  {
    if |parts| > 1 { JoinHasNoSlash(parts[1..]); }
  }

  /** The hexadecimal digits of this domain are as many as those of an MD5 sum, and it is taken for one. */
  lemma DomainTakenForHash()
    ensures DomainLike(HEX_DOMAIN) && InferType(HEX_DOMAIN) == Some(Hash)
  {
    hide ParseCidr, NormalizeHash, NormalizeDomain, ToLower, Trim, Split, ValidLabel, KnownHashLength, DomainLike;
    HexDomainIsDomain();
    HexDomainHashes();
    TrimTight(HEX_DOMAIN);
    HashIsHex(HEX_DOMAIN);
    HashIsStable(HEX_DOMAIN);
    NoAddressInLetters();
    LengthIsKnown();
  }

  const HEX_LABEL := "deadbeefdeadbeef"

  const HEX_DOMAIN := HEX_LABEL + "." + HEX_LABEL

  lemma HexDomainIsDomain()
    ensures DomainLike(HEX_DOMAIN) && NormalizeDomain(HEX_DOMAIN) == HEX_DOMAIN
  {
    hide NormalizeDomain, Fields;
    assert NormalForm(HEX_DOMAIN);
    FixedIffNormalForm(HEX_DOMAIN);
    assert [HEX_LABEL, HEX_LABEL][1..] == [HEX_LABEL];
    assert Join([HEX_LABEL, HEX_LABEL], '.') == HEX_DOMAIN;
    FieldsOfJoin([HEX_LABEL, HEX_LABEL], '.');
    assert HEX_DOMAIN[16] == '.';
  }

  lemma HexDomainHashes()
    ensures |NormalizeHash(HEX_DOMAIN)| == 32
  {
    hide KeepHex, IndexOf;
    TrimTight(HEX_DOMAIN);
    assert ToLower(HEX_DOMAIN) == HEX_DOMAIN;
    assert IndexOf(HEX_DOMAIN, ':') == |HEX_DOMAIN|;
    KeepHexFixed(HEX_LABEL);
    KeepHexSnoc(HEX_LABEL, '.');
    KeepHexConcat(HEX_LABEL + ".", HEX_LABEL);
  }

  lemma {:induction false} KeepHexConcat(a: string, b: string)
    ensures KeepHex(a + b) == KeepHex(a) + KeepHex(b)
  {
    if a == "" {
      assert a + b == b;
    } else {
      assert (a + b)[1..] == a[1..] + b;
      KeepHexConcat(a[1..], b);
    }
  }

  lemma NoAddressInLetters()
    ensures ParseCidr(HEX_DOMAIN).None?
  {
    hide Fields;
    TrimTight(HEX_DOMAIN);
    NoDelimiter(HEX_DOMAIN, '/');
    assert [HEX_LABEL, HEX_LABEL][1..] == [HEX_LABEL];
    assert Join([HEX_LABEL, HEX_LABEL], '.') == HEX_DOMAIN;
    FieldsOfJoin([HEX_LABEL, HEX_LABEL], '.');
  }

  lemma LengthIsKnown()
    requires |NormalizeHash(HEX_DOMAIN)| == 32
    ensures KnownHashLength(NormalizeHash(HEX_DOMAIN))
  {
    hide NormalizeHash;
    HashIsStable(HEX_DOMAIN);
  }

  // ---- tokens ----

  /** The token of a leading field, and the values it may stand before. */
  predicate TokenFor(token: string, w: Watched) {
    var t := ToLower(token);
    match w
    case Address(_) => t == "ip"
    case Range(_, _) => t == "cidr"
    case Name(_) => t == "domain" || t == "host"
    case Digest(_) => t == "hash" || t == "md5" || t == "sha1" || t == "sha256"
    case Link(_) => t == "url"
  }

  lemma {:induction false} KeepHexShortens(v: string)
    ensures |KeepHex(v)| <= |v|
  {
    if v != "" { KeepHexShortens(v[1..]); }
  }

  lemma TokenIsAlnum(token: string, w: Watched)
    requires TokenFor(token, w)
    ensures 0 < |token| < 32 && forall i :: 0 <= i < |token| ==> IsAlnum(token[i])
  {
    var t := ToLower(token);
    assert t in ["ip", "cidr", "domain", "host", "hash", "md5", "sha1", "sha256", "url"];
    assert forall i :: 0 <= i < |t| ==> IsAlnum(t[i]) && t[i] == LowerChar(token[i]);
  }

  lemma TokenNamesType(token: string, w: Watched)
    requires TokenFor(token, w)
    ensures PlainWord(token) && PlainField(token) && InferType(token).None? && TokenType(token) == Some(KindName(w))
  {
    hide Trim, ParseCidr, DomainLike, KeepHex, ToLower;
    TokenIsAlnum(token, w);
    TrimTight(token);
    NoAddressWithoutDot(token);
    SchemeIsNoDomain(token);
    ShortHash(token);
    NoUrlWithoutSlash(token);
  }

  lemma ShortHash(v: string)
    ensures |NormalizeHash(v)| <= |v|
  {
    hide KeepHex, Trim;
    var a, b := TrimDecomposes(v);
    var low := ToLower(Trim(v));
    var colon := IndexOf(low, ':');
    KeepHexShortens(if colon < |low| then low[colon + 1..] else low);
  }

  lemma NoUrlWithoutSlash(v: string)
    requires '/' !in v
    ensures !StartsWith(ToLower(v), "http://") && !StartsWith(ToLower(v), "https://")
  {
    if LooksLikeUrl(v) { var m := UrlSlashes(v); }
  }

  // ---- whole lines ----

  /** The fields behind the value: an optional role word, then attributes. */
  datatype Rest = Rest(role: Option<string>, pairs: seq<Pair>)

  predicate PlainRest(r: Rest) {
    && (r.role.Some? ==> PlainField(r.role.value) && ParseRole(r.role.value).Some?)
    && forall p :: p in r.pairs ==> PlainPair(p)
  }

  function RoleField(r: Rest): seq<string> { if r.role.Some? then [r.role.value] else [] }

  function RestFields(r: Rest): seq<string> { RoleField(r) + PairTexts(r.pairs) }

  lemma BaseReads(kind: IocType, r: Rest, raw: string, source: string)
    requires PlainRest(r)
    ensures var base := LineBase(kind, RestFields(r), raw, source);
            && base.kind == kind && base.raw == raw && base.source == source
            && base.role == (if r.role.Some? then ParseRole(r.role.value).value else Detect)
            && Holds(base.attributes, r.pairs)
            && base.severity == (if "severity" in base.attributes then ToLower(base.attributes["severity"]) else "medium")
  {
    hide ParseRole, Attributes, Holds, PlainPair, PairText, ToLower;
    if r.role.Some? { EqualsNamesNoRole(r.role.value); }
    AttributesRead(RoleField(r), r.pairs);
    if r.role.None? && r.pairs != [] {
      var p := r.pairs[0];
      assert RestFields(r)[0] == PairText(p);
      PairNamesNoRole(p);
    }
  }

  lemma EqualsNamesNoRole(word: string)
    requires PlainField(word) && ParseRole(word).Some?
    ensures '=' !in word
  {
    hide ParseRole;
    if '=' in word { NoRoleWithEquals(word); }
  }

  lemma PairNamesNoRole(p: Pair)
    requires PlainPair(p)
    ensures ParseRole(PairText(p)).None?
  {
    hide ParseRole;
    var f := PairText(p);
    assert f[|f| - 1] == p.value[|p.value| - 1] && f[|p.key|] == '=';
    NoRoleWithEquals(f);
  }

  /** The indicator carries the value, the named role, the source, the attributes and their severity. */
  ghost predicate ReadAs(i: Indicator, w: Watched, r: Rest, line: string, source: string)
    requires WellWritten(w) && PlainRest(r)
  {
    && StoredAs(w, i) && i.raw == line && i.source == source
    && i.role == (if r.role.Some? then ParseRole(r.role.value).value else Detect)
    && Holds(i.attributes, r.pairs)
    && i.severity == (if "severity" in i.attributes then ToLower(i.attributes["severity"]) else "medium")
  }

  /** A line that starts with a value whose type shows reads as exactly what is written. */
  lemma ValueLineReads(w: Watched, r: Rest, source: string)
    requires WellWritten(w) && PlainRest(r) && InferType(ValueText(w)) == Some(KindName(w))
    requires var fields := [ValueText(w)] + RestFields(r);
             |fields| >= 2 && PlainFields(fields) && PlainLine(Join(fields, ','))
    ensures var line := Join([ValueText(w)] + RestFields(r), ',');
            ParseLine(line, source).Some? && ReadAs(ParseLine(line, source).value, w, r, line, source)
  {
    hide Trim, RemoveComment, LineFields, InferType, Classify, LineBase, StoredAs, Holds, StripQuotes, PlainRest, PlainLine, WellWritten,
      RestFields, ParseRole, ToLower, ValueText;
    var fields := [ValueText(w)] + RestFields(r);
    var line := Join(fields, ',');
    FieldsAreRead(fields);
    ValueIsPlain(w);
    FieldIsItself(ValueText(w));
    assert fields[1..] == RestFields(r);
    BaseReads(KindName(w), r, line, source);
    ValueIsStored(LineBase(KindName(w), RestFields(r), line, source), w);
  }

  /** A line that names the type first and then the value reads the same; URLs come in this way only. */
  lemma TokenLineReads(token: string, w: Watched, r: Rest, source: string)
    requires WellWritten(w) && PlainRest(r) && TokenFor(token, w)
    requires var fields := [token, ValueText(w)] + RestFields(r);
             PlainFields(fields) && PlainLine(Join(fields, ','))
    ensures var line := Join([token, ValueText(w)] + RestFields(r), ',');
            ParseLine(line, source).Some? && ReadAs(ParseLine(line, source).value, w, r, line, source)
  {
    hide Trim, RemoveComment, LineFields, InferType, TokenType, Classify, LineBase, StoredAs, Holds, StripQuotes, PlainRest, PlainLine, WellWritten,
      RestFields, ParseRole, ToLower, ValueText, TokenFor;
    var fields := [token, ValueText(w)] + RestFields(r);
    var line := Join(fields, ',');
    FieldsAreRead(fields);
    TokenNamesType(token, w);
    ValueIsPlain(w);
    FieldIsItself(ValueText(w));
    assert fields[2..] == RestFields(r);
    BaseReads(KindName(w), r, line, source);
    ValueIsStored(LineBase(KindName(w), RestFields(r), line, source), w);
  }

  lemma ValueIsPlain(w: Watched)
    requires WellWritten(w)
    ensures PlainWord(ValueText(w))
  {
    hide Decimal, Ipv4ToString, DomainLike;
    match w
    case Address(x) => Ipv4Shape(x);
    case Range(x, prefix) =>
      Ipv4Shape(x);
      var t := ValueText(w);
      assert t[0] == Ipv4ToString(x)[0] && t[|t| - 1] == Decimal(prefix)[|Decimal(prefix)| - 1];
    case _ =>
  }

  /** The key of an indicator as callers write it: type, role and normal form between colons. */
  lemma KeyText(i: Indicator)
    requires i.kind != Unknown
    ensures var t := if i.kind == Ip then "ip" else if i.kind == Cidr then "cidr" else if i.kind == Domain then "domain"
                     else if i.kind == Url then "url" else "hash";
            var r := if i.role == Allow then "allow" else if i.role == Block then "block" else "indicator";
            IndicatorKey(i) == t + ":" + r + ":" + i.normalized
  {}

  /** One label of a name (section 2.3.4 of RFC 1035, digits allowed in front). */
  predicate NameLabel(l: string) {
    1 <= |l| <= 63 && l[0] != '-' && l[|l| - 1] != '-' && forall i :: 0 <= i < |l| ==> IsAlnum(l[i]) || l[i] == '-'
  }

  /** A normalized name is a valid domain exactly when it has two or more labels, all of them well-formed, and at most 253 characters. */
  lemma ValidDomainIff(labels: seq<string>)
    requires labels != [] && (forall l :: l in labels ==> '.' !in l) && NormalForm(Join(labels, '.'))
    ensures IsValidDomain(Join(labels, '.')) <==> |labels| >= 2 && |Join(labels, '.')| <= 253 && forall l :: l in labels ==> NameLabel(l)
  {
    hide NormalizeDomain, Fields, NormalForm, NameLabel, ValidLabel, Join;
    var d := Join(labels, '.');
    FixedIffNormalForm(d);
    FieldsOfJoin(labels, '.');
    DotsBetween(labels);
    forall l ensures ValidLabel(l) <==> NameLabel(l) { SameLabel(l); }
    if IsValidDomain(d) {
      forall l | l in labels ensures NameLabel(l) {
        var i :| 0 <= i < |labels| && labels[i] == l;
        assert ValidLabel(Split(d, '.', true)[i]);
      }
    }
    if |labels| >= 2 && |d| <= 253 && forall l :: l in labels ==> NameLabel(l) {
      forall i | 0 <= i < |Split(d, '.', true)| ensures ValidLabel(Split(d, '.', true)[i]) { assert labels[i] in labels; }
    }
  }

  lemma SameLabel(l: string)
    ensures ValidLabel(l) <==> NameLabel(l)
  {}

  lemma DotsBetween(labels: seq<string>)
    requires labels != [] && forall l :: l in labels ==> '.' !in l
    ensures '.' in Join(labels, '.') <==> |labels| >= 2
  {
    if |labels| > 1 { assert Join(labels, '.')[|labels[0]|] == '.'; }
  }
}
