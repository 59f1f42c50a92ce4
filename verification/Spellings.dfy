/** Every spelling of a name, a hash or a URL, and the one normal form that it is stored in. */
module Spellings {
  import opened Collections
  import opened Text
  import opened Indicators
  import opened DomainNames
  import opened IndicatorText

  predicate Spaces(s: string) { forall i :: 0 <= i < |s| ==> IsSpace(s[i]) }

  predicate Dots(s: string) { forall i :: 0 <= i < |s| ==> s[i] == '.' }

  lemma {:induction false} StripDots(text: string, dots: string)
    requires Dots(dots) && (text != "" ==> text[|text| - 1] != '.')
    ensures StripTrailingDots(text + dots) == text
    decreases |dots|
  {
    if dots == "" {
      assert text + dots == text;
    } else {
      assert (text + dots)[..|text + dots| - 1] == text + dots[..|dots| - 1];
      StripDots(text, dots[..|dots| - 1]);
    }
  }

  // ---- domains ----

  predicate WildcardMark(w: string) { w == "" || w == "." || w == "*." || w == "*.." }

  lemma DropMark(mark: string, v: string)
    requires WildcardMark(mark) && !HasWildcard(v) && v != ""
    ensures DropWildcard(mark + v) == v
  {
    var w := mark + v;
    assert w[|mark|..] == v;
    if mark == "" {
      assert w == v;
    } else if mark == "." {
      assert w[0] == '.' && w[..1] == "." && w[1..] == v;
    } else if mark == "*." {
      assert w[..2] == "*." && w[2..] == v;
    } else {
      assert w[..2] == "*." && w[2..] == "." + v && w[2..][..1] == "." && w[2..][1..] == v;
    }
  }

  /** Spaces around a domain, a wildcard or a dot in front, dots behind and letter case do not matter. */
  lemma DomainSpelling(front: string, mark: string, x: string, dots: string, back: string, v: string)
    requires Spaces(front) && Spaces(back) && Dots(dots) && WildcardMark(mark)
    requires NormalForm(v) && v != "" && ToLower(x) == v
    ensures NormalizeDomain(front + (mark + x + dots) + back) == v
  {
    hide Trim, ToLower, StripTrailingDots, DropWildcard, HasWildcard;
    var y := mark + x + dots;
    SpellingEnds(mark, x, dots, v);
    TrimAround(front, y, back);
    StripDots(mark + x, dots);
    LowerConcat(mark, x);
    MarkIsLower(mark);
    DropMark(mark, v);
  }

  lemma SpellingEnds(mark: string, x: string, dots: string, v: string)
    requires Dots(dots) && WildcardMark(mark) && NormalForm(v) && v != "" && ToLower(x) == v
    ensures mark + x + dots != "" && Tight(mark + x + dots)
    ensures (mark + x)[|mark + x| - 1] != '.'
  {
    var y := mark + x + dots;
    assert v[0] == LowerChar(x[0]) && v[|v| - 1] == LowerChar(x[|x| - 1]);
    assert y[0] == if mark == "" then x[0] else mark[0];
    assert y[|y| - 1] == if dots == "" then x[|x| - 1] else '.';
  }

  lemma LowerConcat(a: string, b: string)
    ensures ToLower(a + b) == ToLower(a) + ToLower(b)
  {}

  lemma MarkIsLower(mark: string)
    requires WildcardMark(mark)
    ensures ToLower(mark) == mark
  {}

  // ---- hashes ----

  /** Exactly the hexadecimal digits are kept, in order and in lower case. */
  lemma {:induction false} HexDigitsAreKept(v: string) returns (kept: seq<bool>)
    ensures |kept| == |v| && KeepHex(v) == ToLower(Selected(v, kept))
    ensures forall i :: 0 <= i < |v| ==> (kept[i] <==> IsHexDigit(v[i]))
  {
    hide KeepHex, IsHexDigit, Selected, ToLower;
    kept := [];
    if v == "" {
      NothingSelected<char>();
      NoHex();
    } else {
      var init, last := v[..|v| - 1], v[|v| - 1];
      kept := HexDigitsAreKept(init);
      assert v == init + [last];
      KeepHexSnoc(init, last);
      SelectedMore(init, kept, last, IsHexDigit(last));
      LowerConcat(Selected(init, kept), [last]);
      OneLower(last);
      kept := kept + [IsHexDigit(last)];
    }
  }

  lemma NoHex()
    ensures ToLower("") == "" && KeepHex("") == ""
  {}

  lemma OneLower(c: char)
    ensures ToLower([c]) == [LowerChar(c)]
  {}

  lemma {:induction false} KeepHexSnoc(v: string, c: char)
    ensures KeepHex(v + [c]) == KeepHex(v) + (if IsHexDigit(c) then [LowerChar(c)] else [])
  {
    if v != "" {
      assert (v + [c])[1..] == v[1..] + [c];
      KeepHexSnoc(v[1..], c);
    }
  }

  lemma {:induction false} KeepAllHex(h: string)
    requires forall i :: 0 <= i < |h| ==> IsHexDigit(h[i])
    ensures KeepHex(ToLower(h)) == ToLower(h)
  {
    var low := ToLower(h);
    forall i | 0 <= i < |low| ensures IsHexDigit(low[i]) && LowerChar(low[i]) == low[i] { LowerHex(h[i]); }
    KeepHexFixed(low);
  }

  lemma LowerHex(c: char)
    requires IsHexDigit(c)
    ensures IsHexDigit(LowerChar(c)) && LowerChar(LowerChar(c)) == LowerChar(c)
  {}

  /** An algorithm name before a colon, spaces around and letter case do not matter. */
  lemma HashSpelling(front: string, name: string, h: string, back: string)
    requires Spaces(front) && Spaces(back) && ':' !in name && Tight(name)
    requires h != "" && forall i :: 0 <= i < |h| ==> IsHexDigit(h[i])
    ensures NormalizeHash(front + (name + ":" + h) + back) == ToLower(h) == NormalizeHash(front + h + back)
  {
    hide Trim, ToLower, KeepHex, IndexOf;
    var v := name + ":" + h;
    assert v[|v| - 1] == h[|h| - 1] && v[0] == if name == "" then ':' else name[0];
    TrimAround(front, v, back);
    TrimAround(front, h, back);
    LowerConcat(name, ":" + h);
    LowerConcat(":", h);
    assert name + (":" + h) == v;
    ColonLowers(name, h);
    KeepAllHex(h);
  }

  lemma ColonLowers(name: string, h: string)
    requires ':' !in name && forall i :: 0 <= i < |h| ==> IsHexDigit(h[i])
    ensures ToLower(name + ":" + h) == ToLower(name) + ":" + ToLower(h)
    ensures IndexOf(ToLower(name + ":" + h), ':') == |name| && ToLower(name + ":" + h)[|name| + 1..] == ToLower(h)
    ensures IndexOf(ToLower(h), ':') == |h|
  {
    var v := name + ":" + h;
    var low := ToLower(v);
    assert forall i :: 0 <= i < |name| ==> low[i] == LowerChar(name[i]) && low[i] != ':';
    assert low[|name|] == ':';
    assert forall i :: 0 <= i < |h| ==> ToLower(h)[i] != ':';
  }

  // ---- URLs ----

  /** A URL with its optional parts: user information, port and path. */
  datatype UrlParts = UrlParts(scheme: string, user: Option<string>, host: string, port: Option<string>, path: string)

  predicate ReadableUrl(u: UrlParts) {
    && ':' !in u.scheme
    && (u.user.Some? ==> '/' !in u.user.value)
    && (forall i :: 0 <= i < |u.host| ==> u.host[i] !in "/@:]")
    && (u.port.Some? ==> forall i :: 0 <= i < |u.port.value| ==> u.port.value[i] !in "/@:]")
    && (u.path == "" || u.path[0] == '/')
  }

  function HostAndPort(u: UrlParts): string { u.host + (if u.port.Some? then ":" + u.port.value else "") }

  function Authority(u: UrlParts): string { (if u.user.Some? then u.user.value + "@" else "") + HostAndPort(u) }

  function UrlText(u: UrlParts): string { u.scheme + "://" + Authority(u) + u.path }

  /** Empty ports and the default ports of the two web schemes are not shown. */
  predicate PortShows(scheme: string, port: string) {
    port != "" && !(scheme == "http" && port == "80") && !(scheme == "https" && port == "443")
  }

  lemma {:induction false} LastOf(a: string, c: char, b: string)
    requires c !in b
    ensures LastIndexOf(a + [c] + b, c) == |a|
    decreases |b|
  {
    var s := a + [c] + b;
    if b != "" {
      assert s[..|s| - 1] == a + [c] + b[..|b| - 1];
      LastOf(a, c, b[..|b| - 1]);
    }
  }

  lemma AuthorityHost(u: UrlParts)
    requires ReadableUrl(u)
    ensures '/' !in Authority(u)
    ensures Authority(u)[LastIndexOf(Authority(u), '@') + 1..] == HostAndPort(u)
  {
    hide LastIndexOf;
    var host := HostAndPort(u);
    assert '@' !in host && '/' !in host;
    if u.user.Some? {
      LastOf(u.user.value, '@', host);
      assert Authority(u) == u.user.value + ['@'] + host;
    } else {
      NoLastIndex(host, '@');
      assert Authority(u) == host && host[0..] == host;
    }
  }

  lemma PortCut(u: UrlParts)
    requires ReadableUrl(u)
    ensures ']' !in HostAndPort(u)
    ensures var colon := LastIndexOf(HostAndPort(u), ':');
            if u.port.Some? then colon == |u.host| && HostAndPort(u)[..colon] == u.host && HostAndPort(u)[colon + 1..] == u.port.value
            else colon == -1 && HostAndPort(u) == u.host
  {
    hide LastIndexOf;
    if u.port.Some? {
      LastOf(u.host, ':', u.port.value);
      assert HostAndPort(u) == u.host + [':'] + u.port.value;
    } else {
      NoLastIndex(u.host, ':');
      assert HostAndPort(u) == u.host;
    }
  }

  /**
   * The normal form keeps scheme, host and path: the user information is gone,
   * scheme and host are in lower case, a default port is not shown, a missing
   * path is the root and runs of slashes in it are one slash.
   */
  lemma UrlSpelling(u: UrlParts)
    requires ReadableUrl(u) && Tight(UrlText(u))
    ensures var scheme := ToLower(u.scheme);
            NormalizeUrl(UrlText(u)) ==
              scheme + "://"
              + (NormalizeDomain(u.host) + (if u.port.Some? && PortShows(scheme, u.port.value) then ":" + u.port.value else ""))
              + CollapseSlashes(if u.path == "" then "/" else u.path)
  {
    hide FindText, IndexOf, Trim, ToLower, CollapseSlashes, Authority, UrlText, ReadableUrl, ShownHost, HostAndPort, LastIndexOf, NormalizeDomain, PortShows;
    TrimTight(UrlText(u));
    UrlPieces(u);
    AuthorityHost(u);
    HostShows(u, ToLower(u.scheme));
  }

  lemma HostShows(u: UrlParts, scheme: string)
    requires ReadableUrl(u)
    ensures ShownHost(scheme, HostAndPort(u)) ==
            NormalizeDomain(u.host) + (if u.port.Some? && PortShows(scheme, u.port.value) then ":" + u.port.value else "")
  {
    hide NormalizeDomain, LastIndexOf, HostAndPort, ReadableUrl, PortShows, ShownPort;
    PortCut(u);
    if u.port.Some? {
      PortIsShown(scheme, u.port.value);
    } else {
      assert NormalizeDomain(u.host) + "" == NormalizeDomain(u.host);
    }
  }

  lemma PortIsShown(scheme: string, port: string)
    ensures ShownPort(scheme, port) == if PortShows(scheme, port) then port else ""
    ensures PortShows(scheme, port) ==> port != ""
  {}

  /** Where the scheme ends, and what the first slash behind it cuts off. */
  lemma UrlPieces(u: UrlParts)
    requires ReadableUrl(u)
    ensures var text := UrlText(u);
            && FindText(text, "://") == |u.scheme| < |text| && text[..|u.scheme|] == u.scheme && |u.scheme| + 3 <= |text|
            && var rest := text[|u.scheme| + 3..];
               var slash := IndexOf(rest, '/');
               && rest[..slash] == Authority(u)
               && (if slash == |rest| then "/" else rest[slash..]) == (if u.path == "" then "/" else u.path)
  {
    hide FindText, IndexOf, LastIndexOf, StartsWith, Authority;
    var text := UrlText(u);
    var tail := "://" + Authority(u) + u.path;
    assert text == u.scheme + tail;
    assert StartsWith(tail, "://") by { StartsHere("://", Authority(u) + u.path); assert tail == "://" + (Authority(u) + u.path); }
    FirstColon(u.scheme, tail);
    assert text[|u.scheme| + 3..] == Authority(u) + u.path;
    AuthorityHost(u);
    if u.path == "" {
      assert Authority(u) + u.path == Authority(u);
      assert IndexOf(Authority(u), '/') == |Authority(u)|;
    } else {
      SlashAt(Authority(u), u.path);
      assert (Authority(u) + u.path)[|Authority(u)|..] == u.path;
    }
  }

  predicate NoDoubleSlash(p: string) { forall i :: 0 <= i < |p| - 1 ==> !(p[i] == '/' && p[i + 1] == '/') }

  /** Collapsing leaves no two slashes in a row, keeps every segment in order, and starts and ends as before. */
  lemma {:induction false} SlashesCollapse(p: string)
    ensures var c := CollapseSlashes(p);
            && NoDoubleSlash(c) && |c| <= |p| && (c == "" <==> p == "")
            && (p != "" ==> c[0] == p[0] && c[|c| - 1] == p[|p| - 1])
            && NonEmpty(Fields(c, '/')) == NonEmpty(Fields(p, '/'))
  {
    hide Fields, NonEmpty;
    if |p| >= 2 {
      var rest := CollapseSlashes(p[1..]);
      SlashesCollapse(p[1..]);
      SegmentsAfter(p[0], p[1..], rest);
      if p[0] == '/' && p[1] == '/' {
        LeadingSlash(p[1..]);
        assert p == "/" + p[1..];
      } else {
        assert p == [p[0]] + p[1..];
      }
    }
  }

  lemma LeadingSlash(s: string)
    ensures NonEmpty(Fields("/" + s, '/')) == NonEmpty(Fields(s, '/'))
  {
    var t := "/" + s;
    assert IndexOf(t, '/') == 0;
    assert t[..0] == "" && t[1..] == s;
    assert Fields(t, '/') == [""] + Fields(s, '/');
    assert ([""] + Fields(s, '/'))[1..] == Fields(s, '/');
  }

  /** The first field grows by a character in front; the others stay. */
  lemma FieldsFront(x: char, s: string)
    requires x != '/'
    ensures Fields([x] + s, '/') == [[x] + Fields(s, '/')[0]] + Fields(s, '/')[1..]
  {
    var t := [x] + s;
    var i := IndexOf(s, '/');
    assert t[1..] == s;
    assert IndexOf(t, '/') == i + 1;
    if i < |s| {
      assert t[..i + 1] == [x] + s[..i] && t[i + 2..] == s[i + 1..];
    } else {
      assert Fields(s, '/') == [s];
      assert Fields(t, '/') == [t];
    }
  }

  lemma SegmentsAfter(x: char, s: string, c: string)
    requires NonEmpty(Fields(c, '/')) == NonEmpty(Fields(s, '/'))
    requires s != "" && c != "" && s[0] == c[0]
    ensures NonEmpty(Fields([x] + c, '/')) == NonEmpty(Fields([x] + s, '/'))
  {
    hide NonEmpty, Fields;
    if x == '/' {
      LeadingSlash(s);
      LeadingSlash(c);
      assert [x] == "/";
    } else {
      FieldsFront(x, s);
      FieldsFront(x, c);
      FirstSegment(s);
      FirstSegment(c);
      var fs, fc := Fields(s, '/'), Fields(c, '/');
      assert fs[0] == fc[0] && NonEmpty(fs[1..]) == NonEmpty(fc[1..]) by {
        if s[0] != '/' {
          SameCons(fs[0], NonEmpty(fs[1..]), fc[0], NonEmpty(fc[1..]));
        }
      }
      Kept([x] + fs[0], fs[1..]);
      Kept([x] + fc[0], fc[1..]);
    }
  }

  lemma SameCons<T>(a: T, s: seq<T>, b: T, t: seq<T>)
    requires [a] + s == [b] + t
    ensures a == b && s == t
  {
    assert ([a] + s)[0] == a && ([b] + t)[0] == b && ([a] + s)[1..] == s && ([b] + t)[1..] == t;
  }

  lemma Kept(first: string, rest: seq<string>)
    requires first != ""
    ensures NonEmpty([first] + rest) == [first] + NonEmpty(rest)
  {
    assert ([first] + rest)[1..] == rest;
  }

  lemma FirstSegment(s: string)
    requires s != ""
    ensures s[0] == '/' ==> Fields(s, '/')[0] == "" && NonEmpty(Fields(s, '/')[1..]) == NonEmpty(Fields(s, '/'))
    ensures s[0] != '/' ==> Fields(s, '/')[0] != "" && NonEmpty(Fields(s, '/')) == [Fields(s, '/')[0]] + NonEmpty(Fields(s, '/')[1..])
  {}

  // ---- a port that is shown ----

  /** Punctuation that normalization neither strips nor makes: not a dot, a star, a space or a letter. */
  predicate Mark(c: char) { c != '.' && c != '*' && !IsSpace(c) && !('a' <= c <= 'z') && !('A' <= c <= 'Z') }

  lemma {:induction false} StripKeepsMark(s: string, c: char)
    requires Mark(c)
    ensures c in StripTrailingDots(s) <==> c in s
  {
    if s != "" && s[|s| - 1] == '.' {
      StripKeepsMark(s[..|s| - 1], c);
      assert s == s[..|s| - 1] + ".";
    }
  }

  lemma NormalizeKeepsMark(s: string, c: char)
    requires Mark(c)
    ensures c in NormalizeDomain(s) <==> c in s
  {
    hide StripTrailingDots, DropWildcard, Trim;
    var a, b := TrimDecomposes(s);
    if c in s {
      var i :| 0 <= i < |s| && s[i] == c;
      assert a <= i < b && Trim(s)[i - a] == c;
    }
    if c in Trim(s) {
      var i :| 0 <= i < |Trim(s)| && Trim(s)[i] == c;
      assert s[a + i] == c;
    }
    StripKeepsMark(Trim(s), c);
    LowerKeepsMark(StripTrailingDots(Trim(s)), c);
    DropKeepsMark(ToLower(StripTrailingDots(Trim(s))), c);
  }

  lemma LowerKeepsMark(s: string, c: char)
    requires Mark(c)
    ensures c in ToLower(s) <==> c in s
  {
    assert forall d: char :: LowerChar(d) == c <==> d == c;
    if c in s {
      var i :| 0 <= i < |s| && s[i] == c;
      assert ToLower(s)[i] == c;
    }
  }

  lemma DropKeepsMark(v: string, c: char)
    requires Mark(c)
    ensures c in DropWildcard(v) <==> c in v
  {
    var w := if StartsWith(v, "*.") then v[2..] else v;
    if StartsWith(v, "*.") {
      assert v == "*." + v[2..];
    }
    if StartsWith(w, ".") {
      assert w == "." + w[1..];
    }
  }

  /** The host of a normal form stands between the slashes. */
  lemma HostStands(scheme: string, shown: string, path: string)
    requires ':' !in scheme && '/' !in shown && path != "" && path[0] == '/'
    ensures UrlHost(ToLower(scheme) + "://" + shown + CollapseSlashes(path)) == shown
  {
    hide UrlHost, CollapseSlashes, ToLower;
    SlashesCollapse(path);
    LowerKeepsMark(scheme, ':');
    HostInBrackets(ToLower(scheme), shown, CollapseSlashes(path));
  }

  lemma ShownHasNoSlash(u: UrlParts)
    requires ReadableUrl(u)
    ensures '/' !in NormalizeDomain(u.host) && (u.port.Some? ==> '/' !in NormalizeDomain(u.host) + (":" + u.port.value))
    ensures NormalizeDomain(u.host) + "" == NormalizeDomain(u.host)
    ensures u.port.Some? ==> NormalizeDomain(u.host) + (":" + u.port.value) == NormalizeDomain(u.host) + ":" + u.port.value
    ensures ':' !in u.scheme && (u.path != "" ==> u.path[0] == '/')
  {
    hide NormalizeDomain;
    NormalizeKeepsMark(u.host, '/');
  }

  lemma StoredHostKeepsPort(u: UrlParts)
    requires ReadableUrl(u) && Tight(UrlText(u)) && u.port.Some? && PortShows(ToLower(u.scheme), u.port.value)
    ensures UrlHost(NormalizeUrl(UrlText(u))) == NormalizeDomain(u.host) + ":" + u.port.value
  {
    hide NormalizeUrl, NormalizeDomain, CollapseSlashes, UrlHost, PortShows, UrlText, ToLower, ReadableUrl, Tight;
    UrlSpelling(u);
    ShownHasNoSlash(u);
    HostStands(u.scheme, NormalizeDomain(u.host) + (":" + u.port.value), if u.path == "" then "/" else u.path);
  }

  /** Without a port that is shown the stored host is the host, normalized once. */
  lemma StoredHost(u: UrlParts)
    requires ReadableUrl(u) && Tight(UrlText(u)) && (u.port.Some? ==> !PortShows(ToLower(u.scheme), u.port.value))
    ensures UrlHost(NormalizeUrl(UrlText(u))) == NormalizeDomain(u.host)
  {
    hide NormalizeUrl, NormalizeDomain, CollapseSlashes, UrlHost, PortShows, UrlText, ToLower, ReadableUrl, Tight;
    UrlSpelling(u);
    ShownHasNoSlash(u);
    HostStands(u.scheme, NormalizeDomain(u.host), if u.path == "" then "/" else u.path);
  }

  lemma ColonNameIsApart(host: string, port: string, name: string)
    requires ':' !in name
    ensures !DomainMatches(host + ":" + port, name)
  {
    hide NormalizeDomain, EndsWith;
    var h := host + ":" + port;
    assert h[|host|] == ':';
    NormalizeKeepsMark(h, ':');
    NormalizeKeepsMark(name, ':');
    ColonInSuffix(NormalizeDomain(h), NormalizeDomain(name));
  }

  /**
   * The host of a stored URL keeps a port that is shown: such an indicator hits
   * no name without a colon, its own host included.
   */
  lemma ShownPortHitsNothing(u: UrlParts, name: string)
    requires ReadableUrl(u) && Tight(UrlText(u)) && u.port.Some? && PortShows(ToLower(u.scheme), u.port.value) && ':' !in name
    ensures !DomainMatches(UrlHost(NormalizeUrl(UrlText(u))), name)
  {
    hide *;
    StoredHostKeepsPort(u);
    ColonNameIsApart(NormalizeDomain(u.host), u.port.value, name);
  }

  lemma ColonInSuffix(ind: string, obs: string)
    requires ':' in ind && ':' !in obs
    ensures obs != ind && !EndsWith(obs, "." + ind)
  {
    var i :| 0 <= i < |ind| && ind[i] == ':';
    assert ("." + ind)[i + 1] == ':';
  }
}
