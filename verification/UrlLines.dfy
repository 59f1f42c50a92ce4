/**
 * URLs in indicator lists. The comment scanner takes the two slashes of a URL
 * for a comment, so a URL is never recognized by its scheme; a leading `url`
 * token brings it in, and its host is then stored without a validity check.
 */
module UrlLines {
  import opened Collections
  import opened Text
  import opened Ipv4
  import opened Indicators
  import opened DomainNames
  import opened IndexSpec
  import opened IndicatorText

  predicate QuoteChar(c: char) { c == '"' || c == '\'' }

  /** No quote among the first `n` characters. */
  predicate Bare(s: string, n: nat)
    requires n <= |s|
  {
    forall i :: 0 <= i < n ==> !QuoteChar(s[i])
  }

  predicate BareUpTo(s: string, t: string, o: nat) { o + |t| <= |s| && s[o..o + |t|] == t && Bare(s, o) }

  /** `t` stands in `s` with no quote before it. */
  ghost predicate AfterBare(s: string, t: string) { exists o: nat :: BareUpTo(s, t, o) }

  lemma AfterBareTransitive(s: string, t: string, u: string)
    requires AfterBare(s, t) && AfterBare(t, u)
    ensures AfterBare(s, u)
  {
    var a: nat :| BareUpTo(s, t, a);
    var b: nat :| BareUpTo(t, u, b);
    SliceOfSlice(s, a, |t|, b, |u|);
    assert forall i :: a <= i < a + b ==> s[i] == t[i - a];
    assert BareUpTo(s, u, a + b);
  }

  lemma FrontAfterBare(s: string, k: nat)
    requires k <= |s|
    ensures AfterBare(s, s[..k])
  {
    assert BareUpTo(s, s[..k], 0);
  }

  lemma TailAfterBare(s: string)
    requires s != "" && !QuoteChar(s[0])
    ensures AfterBare(s, s[1..])
  {
    assert BareUpTo(s, s[1..], 1);
  }

  lemma TrimAfterBare(s: string)
    ensures AfterBare(s, Trim(s))
  {
    hide Trim;
    var a, b := TrimDecomposes(s);
    assert BareUpTo(s, Trim(s), a);
  }

  /** The first non-empty field comes behind delimiters only. */
  lemma {:induction false} FirstFieldAfterBare(s: string, d: char)
    requires !QuoteChar(d)
    ensures NonEmpty(Fields(s, d)) != [] ==> AfterBare(s, NonEmpty(Fields(s, d))[0])
    decreases |s|
  {
    hide AfterBare;
    var i := IndexOf(s, d);
    FrontAfterBare(s, i);
    FieldsStep(s, d);
    if i == |s| {
      assert s[..i] == s;
    } else if i == 0 {
      FirstFieldAfterBare(s[1..], d);
      TailAfterBare(s);
      if NonEmpty(Fields(s[1..], d)) != [] { AfterBareTransitive(s, s[1..], NonEmpty(Fields(s[1..], d))[0]); }
    }
  }

  lemma FieldsStep(s: string, d: char)
    ensures var i := IndexOf(s, d);
            NonEmpty(Fields(s, d)) ==
              if i == |s| then (if s == "" then [] else [s])
              else (if i == 0 then [] else [s[..i]]) + NonEmpty(Fields(s[i + 1..], d))
  {
    var i := IndexOf(s, d);
    if i < |s| { assert Fields(s, d)[1..] == Fields(s[i + 1..], d); }
  }

  lemma FirstWordAfterBare(s: string)
    ensures Words(s) != [] ==> AfterBare(s, Words(s)[0])
  {
    var a := TrimLeftDecomposes(s);
    var t := TrimLeft(s);
    if t != "" {
      var k := WordEnd(t);
      assert s[a..a + k] == t[..k];
      assert BareUpTo(s, t[..k], a);
    }
  }

  lemma FirstLineField(line: string)
    ensures LineFields(line) != [] ==> AfterBare(RemoveComment(line), Trim(LineFields(line)[0]))
  {
    hide Trim, RemoveComment, Fields, Words, AfterBare;
    var clean := Trim(RemoveComment(line));
    TrimAfterBare(RemoveComment(line));
    FirstFieldAfterBare(clean, ',');
    FirstFieldAfterBare(clean, '|');
    FirstWordAfterBare(clean);
    var fields := LineFields(line);
    if fields != [] {
      AfterBareTransitive(RemoveComment(line), clean, fields[0]);
      TrimAfterBare(fields[0]);
      AfterBareTransitive(RemoveComment(line), fields[0], Trim(fields[0]));
    }
  }

  // ---- what the comment scanner leaves ----

  lemma {:induction false} BareCommentCuts(line: string, i: nat, k: nat)
    requires i <= k < |line| && CommentAt(line, k) && Bare(line, k + 1)
    ensures CommentStart(line, i, None) <= k
    decreases k - i
  {
    hide CommentAt;
    if i < k { BareCommentCuts(line, i + 1, k); }
  }

  /** Two slashes are left only behind a quote. */
  lemma NoBareSlashes(line: string, t: string, m: nat)
    requires m + 1 < |t| && Bare(t, m) && t[m] == t[m + 1] == '/'
    ensures !AfterBare(RemoveComment(line), t)
  {
    hide CommentStart;
    var kept := RemoveComment(line);
    forall o: nat ensures !BareUpTo(kept, t, o) {
      if BareUpTo(kept, t, o) {
        assert line[o..o + |t|] == kept[o..o + |t|];
        SlashesAreCut(line, t, m, o);
      }
    }
  }

  lemma SlashesAreCut(line: string, t: string, m: nat, o: nat)
    requires m + 1 < |t| && Bare(t, m) && t[m] == t[m + 1] == '/'
    requires BareUpTo(line, t, o)
    ensures |RemoveComment(line)| <= o + m
  {
    hide CommentStart;
    assert forall i :: o <= i < o + |t| ==> line[i] == t[i - o];
    BareCommentCuts(line, 0, o + m);
  }

  predicate LooksLikeUrl(v: string) { StartsWith(ToLower(v), "http://") || StartsWith(ToLower(v), "https://") }

  /** A scheme in any letter case, then the two slashes. */
  lemma LowerPrefix(v: string, scheme: string)
    requires StartsWith(ToLower(v), scheme + "//") && Bare(scheme, |scheme|)
    ensures var m := |scheme|; m + 1 < |v| && Bare(v, m) && v[m] == v[m + 1] == '/' && ToLower(v[..m]) == scheme
  {
    var p := scheme + "//";
    assert forall i :: 0 <= i < |p| ==> p[i] == LowerChar(v[i]);
    assert p[|scheme|] == '/' && p[|scheme| + 1] == '/';
    assert forall i :: 0 <= i < |scheme| ==> p[i] == scheme[i];
  }

  lemma UrlSlashes(v: string) returns (m: nat)
    requires LooksLikeUrl(v)
    ensures m + 1 < |v| && Bare(v, m) && v[m] == v[m + 1] == '/'
    ensures ToLower(v[..m]) == "http:" || ToLower(v[..m]) == "https:"
  {
    hide ToLower, StartsWith;
    assert "http://" == "http:" + "//" && "https://" == "https:" + "//";
    m := if StartsWith(ToLower(v), "http://") then 5 else 6;
    LowerPrefix(v, if m == 5 then "http:" else "https:");
  }

  /** The URL test of the type inference never succeeds on the first field of a line. */
  lemma UrlIsNeverInferred(line: string)
    ensures LineFields(line) != [] ==> InferType(LineFields(line)[0]) != Some(Url)
  {
    hide LineFields, Trim, NormalizeHash, DomainLike, ParseCidr, RemoveComment, ToLower, KnownHashLength, AfterBare, Bare;
    if LineFields(line) != [] && InferType(LineFields(line)[0]) == Some(Url) {
      var v := Trim(LineFields(line)[0]);
      assert LooksLikeUrl(v);
      FirstLineField(line);
      var m := UrlSlashes(v);
      NoBareSlashes(line, v, m);
    }
  }

  lemma ClassifyKeepsKind(base: Indicator, value: string)
    requires base.ip.None? && base.cidr.None?
    ensures Classify(base, value).Some? ==> Classify(base, value).value.kind == base.kind
    ensures base.kind == Url ==> Classify(base, value).Some?
  {
    hide DomainLike, NormalizeDomain, NormalizeUrl, NormalizeHash, ParseCidr, ParseIpv4, CidrToString, Ipv4ToString, KnownHashLength;
  }

  // ---- a line that starts with a URL ----

  lemma {:induction false} CutHere(line: string, i: nat, k: nat)
    requires i <= k < |line| && line[k] == '/' && k + 1 < |line| && line[k + 1] == '/' && Bare(line, k + 1)
    requires forall j :: i <= j < k ==> line[j] != '#' && line[j] != '/'
    ensures CommentStart(line, i, None) == k
    decreases k - i
  {
    if i < k { CutHere(line, i + 1, k); }
  }

  predicate SchemeChar(c: char) { IsAlnum(c) || c == ':' }

  lemma LowerIsScheme(v: string, scheme: string)
    requires ToLower(v) == scheme && (scheme == "http:" || scheme == "https:")
    ensures forall i :: 0 <= i < |v| ==> SchemeChar(v[i])
    ensures v[|v| - 1] == ':' && forall i :: 0 <= i < |v| - 1 ==> v[i] != ':'
  {
    assert forall i :: 0 <= i < |v| ==> scheme[i] == LowerChar(v[i]);
  }

  /** Of such a line only the scheme and its colon are left. */
  lemma OnlySchemeIsLeft(line: string)
    requires LooksLikeUrl(Trim(line))
    ensures var clean := Trim(RemoveComment(line)); ToLower(clean) == "http:" || ToLower(clean) == "https:"
  {
    hide ToLower, CommentStart, Trim;
    var a, b := TrimDecomposes(line);
    var v := Trim(line);
    var m := UrlSlashes(v);
    var front := v[..m];
    LowerIsScheme(front, ToLower(front));
    var k := a + m;
    assert forall i :: a <= i < b ==> line[i] == v[i - a];
    forall j | 0 <= j < k ensures line[j] != '#' && line[j] != '/' && !QuoteChar(line[j]) {
      if j >= a { assert line[j] == front[j - a]; }
    }
    CutHere(line, 0, k);
    assert RemoveComment(line) == line[..a] + front;
    assert Tight(front);
    SpacesThenTight(line[..a], front);
  }

  lemma SpacesThenTight(pad: string, text: string)
    requires forall i :: 0 <= i < |pad| ==> IsSpace(pad[i])
    requires text != "" && Tight(text)
    ensures Trim(pad + text) == text
  {
    TrimLeftPadded(pad, text);
    assert TrimRight(text) == text;
  }

  lemma LoneSchemeFields(line: string)
    requires var clean := Trim(RemoveComment(line)); clean != "" && forall i :: 0 <= i < |clean| ==> SchemeChar(clean[i])
    ensures LineFields(line) == [Trim(RemoveComment(line))]
  {
    hide Words, RemoveComment, Trim;
    var clean := Trim(RemoveComment(line));
    assert ',' !in clean && '|' !in clean;
    assert clean + "" == clean;
    WordFirst(clean, "");
    NoWords();
  }

  lemma SchemeIsNothing(v: string)
    requires v != "" && v[|v| - 1] == ':' && (forall i :: 0 <= i < |v| ==> SchemeChar(v[i])) && forall i :: 0 <= i < |v| - 1 ==> v[i] != ':'
    ensures ParseCidr(v).None? && NormalizeHash(v) == "" && !DomainLike(v) && Trim(v) == v
  {
    hide Trim;
    TrimTight(v);
    NoDelimiter(v, '/');
    NoDelimiter(v, '.');
    assert ParseIpv4(v).None?;
    SchemeHashes(v);
    SchemeIsNoDomain(v);
  }

  lemma NoDelimiter(v: string, d: char)
    requires v != "" && d !in v
    ensures Split(v, d, true) == [v]
  {
    assert IndexOf(v, d) == |v|;
  }

  lemma SchemeHashes(v: string)
    requires v != "" && v[|v| - 1] == ':' && Trim(v) == v && forall i :: 0 <= i < |v| - 1 ==> v[i] != ':'
    ensures NormalizeHash(v) == ""
  {
    hide Trim;
    var w := ToLower(v);
    assert w[|w| - 1] == ':' && forall i :: 0 <= i < |w| - 1 ==> w[i] != ':';
    assert IndexOf(w, ':') == |w| - 1;
    assert w[|w|..] == "";
  }

  lemma NoDotStays(v: string)
    requires Trim(v) == v && '.' !in v
    ensures '.' !in NormalizeDomain(v)
  {
    hide Trim, DropWildcard, StripTrailingDots;
    var w := ToLower(StripTrailingDots(v));
    DropWildcardIsSuffix(w);
    var k :| 0 <= k <= 3 && k <= |w| && DropWildcard(w) == w[k..];
    assert forall i :: 0 <= i < |w| ==> w[i] == LowerChar(v[i]) != '.';
  }

  lemma SchemeIsNoDomain(v: string)
    requires v != "" && Trim(v) == v && forall i :: 0 <= i < |v| ==> SchemeChar(v[i])
    ensures !DomainLike(v)
  {
    hide Trim, NormalizeDomain, Split, ValidLabel;
    assert '.' !in v;
    NoDotStays(v);
    assert v[0] != '*';
  }

  /** Every line that starts with an http or https URL is rejected, whatever follows. */
  lemma LineStartingWithUrlRejected(line: string, source: string)
    requires LooksLikeUrl(Trim(line))
    ensures ParseLine(line, source).None?
  {
    hide LineFields, Trim, NormalizeHash, DomainLike, ParseCidr, RemoveComment, ToLower, KnownHashLength, Classify, TokenType, LooksLikeUrl;
    var clean := Trim(RemoveComment(line));
    OnlySchemeIsLeft(line);
    LowerIsScheme(clean, ToLower(clean));
    LoneSchemeFields(line);
    SchemeIsNothing(clean);
    UrlIsNeverInferred(line);
    assert InferType(clean).None?;
  }

  // ---- stacked wildcards ----

  /** A list line that brings in a URL whose host keeps two wildcards. */
  lemma StackedWildcardLine(source: string)
    ensures var i := ParseLine("url,*.*.*.a.b", source);
            i.Some? && i.value.kind == Url && i.value.role == Detect && i.value.normalized == "http://*.*.a.b/"
  {
    hide Trim, ToLower, RemoveComment, NormalizeUrl, NormalizeHash, NormalizeDomain, ParseCidr, DomainLike, KnownHashLength, Fields, StripQuotes, LineFields;
    StackedLineFields();
    TrimTight("url");
    UrlLowers();
    UrlTokenIsNothing("url");
    BareHostNormalizes("*.*.*.a.b");
    DropOneWildcard("*.*.a.b");
    assert "*." + "*.*.a.b" == "*.*.*.a.b";
    assert "http://" + "*.*.a.b" + "/" == "http://*.*.a.b/";
  }

  lemma StackedLineFields()
    ensures Trim(RemoveComment("url,*.*.*.a.b")) == "url,*.*.*.a.b"
    ensures LineFields("url,*.*.*.a.b") == ["url", "*.*.*.a.b"]
    ensures StripQuotes(Trim("*.*.*.a.b")) == "*.*.*.a.b"
  {
    hide Trim, CommentStart, Join, Fields;
    var line := "url,*.*.*.a.b";
    OutsideSegment(line, 0, |line|);
    EndOfLine(line);
    assert line[..|line|] == line;
    TrimTight(line);
    TrimTight("*.*.*.a.b");
    var parts := ["url", "*.*.*.a.b"];
    TwoJoined();
    FieldsOfJoin(parts, ',');
    NonEmptyKeepsAll(parts);
    assert ',' in line by { assert line[3] == ','; }
  }

  lemma TwoJoined()
    ensures Join(["url", "*.*.*.a.b"], ',') == "url,*.*.*.a.b"
  {
    assert ["url", "*.*.*.a.b"][1..] == ["*.*.*.a.b"];
  }

  lemma UrlTokenIsNothing(token: string)
    requires ToLower(Trim(token)) == "url"
    ensures InferType(token).None? && TokenType(token) == Some(Url)
  {
    hide Trim, ToLower, ParseCidr, NormalizeHash, DomainLike, KnownHashLength;
    var a, b := TrimDecomposes(token);
    TrimTight(Trim(token));
    UrlReadsAsNothing(Trim(token));
  }

  lemma UrlReadsAsNothing(v: string)
    requires Trim(v) == v && ToLower(v) == "url"
    ensures v != "" && ParseCidr(v).None? && NormalizeHash(v) == "" && !DomainLike(v)
  {
    hide Trim, Fields, KeepHex, DomainLike;
    var low := "url";
    assert forall i :: 0 <= i < |v| ==> LowerChar(v[i]) == low[i];
    NoDelimiter(v, '/');
    NoDelimiter(v, '.');
    assert IndexOf(low, ':') == |low|;
    NoHexInUrl();
    SchemeIsNoDomain(v);
  }

  lemma UrlLowers()
    ensures ToLower("url") == "url"
  {}

  lemma NoHexInUrl()
    ensures KeepHex("url") == ""
  {
    assert "url"[1..] == "rl" && "rl"[1..] == "l" && "l"[1..] == "";
  }

  // ---- which lines yield a URL ----

  /** So a line yields a URL indicator exactly when its first field is the token `url` and another follows. */
  lemma UrlNeedsToken(line: string, source: string)
    ensures ParseLine(line, source).Some? && ParseLine(line, source).value.kind == Url <==>
            |LineFields(line)| > 1 && ToLower(Trim(LineFields(line)[0])) == "url"
  {
    hide LineFields, Trim, Classify, LineBase, RemoveComment, ToLower, InferType, StripQuotes;
    UrlIsNeverInferred(line);
    var fields := LineFields(line);
    if fields != [] {
      BlankHasNoFields(line);
      if ToLower(Trim(fields[0])) == "url" { UrlTokenIsNothing(fields[0]); }
      var (kind, at) := KindOf(fields);
      if kind.Some? {
        ClassifyKeepsKind(LineBase(kind.value, fields[at + 1..], Trim(RemoveComment(line)), source), StripQuotes(Trim(fields[at])));
      }
    }
  }

  lemma BlankHasNoFields(line: string)
    ensures Trim(RemoveComment(line)) == "" ==> LineFields(line) == []
  {
    hide RemoveComment, Trim, Words;
    NoWords();
  }

  // ---- what one URL makes of the two sides ----

  lemma OneKey(key: string)
    ensures SortedKeys({key}) == [key]
  {
    hide Less;
    assert {key} - {key} == {};
    assert key in SortedKeys({key});
    assert |SortedKeys({key} - {key})| == 0;
  }

  lemma OneKept(m: MatchResult)
    ensures Suppress([m]) == [m] && Suppress([]) == []
  {
    assert [m][..0] == [];
    assert forall a :: a in [m] ==> a == m;
    assert !Suppressed([m], m);
    assert KeepUnsuppressed([m], []) == [];
  }

  lemma OneBucket(i: Indicator)
    requires i.kind == Domain || i.kind == Url
    ensures var key := NormalizeDomain(HostOf(i)); DomainKeys([i]) == {key} && InBucket([i], DomainKey(key)) == [i]
  {
    hide NormalizeDomain, HostOf;
    var key := NormalizeDomain(HostOf(i));
    assert BucketOf(i) == DomainKey(key);
    assert i in [i];
    assert forall j :: j in [i] ==> j == i;
    assert [i][..0] == [] && InBucket([], DomainKey(key)) == [];
  }

  lemma OneNameHit(i: Indicator, key: string, observed: string)
    requires InBucket([i], DomainKey(key)) == [i]
    ensures NameHits([i], [key], observed) == if DomainMatches(key, observed) then [i] else []
  {
    hide DomainMatches, InBucket;
    assert [key][1..] == [] && NameHits([i], [], observed) == [];
  }

  lemma OneDomainAnswer(i: Indicator, name: string)
    requires i.kind == Domain || i.kind == Url
    ensures DomainAnswer([i], name, "dns.name") ==
            if IndexMatchesName(HostOf(i), name) then [MatchResult(i, "dns.name", NormalizeDomain(name))] else []
  {
    hide NormalizeDomain, HostOf, DomainMatches, SortedKeys, DomainKeys, InBucket, NameHits;
    OneBucket(i);
    OneKey(NormalizeDomain(HostOf(i)));
    OneNameHit(i, NormalizeDomain(HostOf(i)), NormalizeDomain(name));
  }

  /** An index that holds one domain or URL indicator answers a name as the twice normalized texts match. */
  lemma OneIndexAnswer(i: Indicator, name: string)
    requires i.kind == Domain || i.kind == Url
    ensures PacketAnswer([i], Observed(None, [name])) ==
            if IndexMatchesName(HostOf(i), name) then [MatchResult(i, "dns.name", NormalizeDomain(name))] else []
  {
    hide NormalizeDomain, HostOf, IndexMatchesName, Suppress, DomainAnswer;
    OneDomainAnswer(i, name);
    assert [name][..0] == [] && AllDomainAnswers([i], []) == [];
    assert AllDomainAnswers([i], [name]) == DomainAnswer([i], name, "dns.name");
    assert IndexHits([i], Observed(None, [name])) == DomainAnswer([i], name, "dns.name");
    OneKept(MatchResult(i, "dns.name", NormalizeDomain(name)));
  }

  lemma OneScanAnswer(i: Indicator, name: string)
    requires i.kind == Domain || i.kind == Url
    ensures ScanPacket([i], Observed(None, [name])) ==
            if DomainMatches(HostOf(i), name) then [MatchResult(i, "dns.name", NormalizeDomain(name))] else []
  {
    hide NormalizeDomain, HostOf, DomainMatches, Suppress;
    assert [i][..0] == [] && NameMatches([], name) == [];
    assert NameMatches([i], name) == if ScanHitsName(i, name) then [MatchResult(i, "dns.name", NormalizeDomain(name))] else [];
    assert [name][..0] == [] && AllNameMatches([i], []) == [];
    assert AllNameMatches([i], [name]) == NameMatches([i], name);
    assert ScanHits([i], Observed(None, [name])) == NameMatches([i], name);
    OneKept(MatchResult(i, "dns.name", NormalizeDomain(name)));
  }

  /** One URL is answered alike on all space-free names exactly when its host meets the exact condition. */
  lemma OneUrlAgreesIff(i: Indicator)
    requires i.kind == Url
    ensures (forall name: string | NoSpaces(name) :: PacketAnswer([i], Observed(None, [name])) == ScanPacket([i], Observed(None, [name])))
            <==> Agreeable(HostOf(i))
  {
    hide NormalizeDomain, HostOf, DomainMatches, IndexMatchesName, PacketAnswer, ScanPacket, Agreeable, NoSpaces;
    AgreementIffStable(HostOf(i));
    forall name: string
      ensures PacketAnswer([i], Observed(None, [name])) == ScanPacket([i], Observed(None, [name]))
              <==> IndexMatchesName(HostOf(i), name) == DomainMatches(HostOf(i), name)
    {
      OneIndexAnswer(i, name);
      OneScanAnswer(i, name);
    }
  }

  lemma {:induction false} OneAccepted(line: string, source: string)
    requires '\n' !in line && line != "" && ParseLine(line, source).Some?
    ensures FirstByKey(AcceptedLines(Fields(line, '\n'), source)) == [ParseLine(line, source).value]
  {
    hide ParseLine, IndicatorKey, Fields;
    NoDelimiter(line, '\n');
    var i := ParseLine(line, source).value;
    assert [line][..0] == [] && [i][..0] == [];
    assert AcceptedLines([], source) == [];
    assert AcceptedLines([line], source) == [i];
    assert Keys([]) == {};
  }

  /** A list of this one line: the session's index reports `a.a.b`, the linear scan of the same list does not. */
  lemma StackedWildcardDisagrees(source: string)
    ensures var inds := FirstByKey(AcceptedLines(Fields("url,*.*.*.a.b", '\n'), source));
            var md := Observed(None, ["a.a.b"]);
            |inds| == 1 && PacketAnswer(inds, md) == [MatchResult(inds[0], "dns.name", "a.a.b")] && ScanPacket(inds, md) == []
  {
    hide ParseLine, FirstByKey, AcceptedLines, Fields, NormalizeDomain, PacketAnswer, ScanPacket, IndexMatchesName, DomainMatches, UrlHost;
    var line := "url,*.*.*.a.b";
    StackedWildcardLine(source);
    OneAccepted(line, source);
    var i := ParseLine(line, source).value;
    StackedWildcardUrl();
    OneIndexAnswer(i, "a.a.b");
    OneScanAnswer(i, "a.a.b");
  }
}
