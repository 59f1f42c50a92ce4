/**
 * When does normalizing a name once more change nothing? The index normalizes
 * the stored host and the observed name one time more than the scan does.
 */
module DomainNames {
  import opened Text
  import opened Indicators

  predicate Stable(host: string) {
    NormalizeDomain(NormalizeDomain(host)) == NormalizeDomain(host)
  }

  /** The normalized name carries no surrounding space. */
  predicate Clean(name: string) { Tight(NormalizeDomain(name)) }

  /** The index compares the twice normalized texts where the scan compares the once normalized. */
  predicate IndexMatchesName(host: string, name: string) {
    DomainMatches(NormalizeDomain(host), NormalizeDomain(name))
  }

  predicate Lowered(v: string) { forall i :: 0 <= i < |v| ==> !('A' <= v[i] <= 'Z') }

  /** Shape of every normalized text before its wildcard is dropped. */
  predicate Dotless(v: string) { Lowered(v) && (v != "" ==> v[|v| - 1] != '.') }

  predicate HasWildcard(v: string) { StartsWith(v, ".") || StartsWith(v, "*.") }

  predicate NormalForm(v: string) { Dotless(v) && Tight(v) && !HasWildcard(v) }

  lemma LowerOfLowered(v: string)
    requires Lowered(v)
    ensures ToLower(v) == v
  {}

  lemma StripOfDotless(v: string)
    requires v != "" ==> v[|v| - 1] != '.'
    ensures StripTrailingDots(v) == v
  {}

  lemma BeforeWildcard(name: string)
    ensures Dotless(ToLower(StripTrailingDots(Trim(name))))
  {
    var v := StripTrailingDots(Trim(name));
    assert v != "" ==> ToLower(v)[|v| - 1] == LowerChar(v[|v| - 1]);
  }

  lemma DropWildcardIsSuffix(v: string)
    ensures exists k :: 0 <= k <= 3 && k <= |v| && DropWildcard(v) == v[k..] && (k > 0 ==> v[k - 1] == '.')
    ensures Dotless(v) ==> Dotless(DropWildcard(v))
    ensures Dotless(v) && v != "" ==> DropWildcard(v) != ""
    ensures |DropWildcard(v)| == |v| <==> !HasWildcard(v)
    ensures !HasWildcard(v) ==> DropWildcard(v) == v
  {
    var w := if StartsWith(v, "*.") then v[2..] else v;
    var d := DropWildcard(v);
    if StartsWith(v, "*.") {
      if StartsWith(w, ".") { assert d == v[3..]; } else { assert d == v[2..]; }
    } else {
      if StartsWith(w, ".") { assert d == v[1..]; } else { assert d == v[0..]; }
    }
  }

  lemma NormalizedIsDotless(name: string)
    ensures Dotless(NormalizeDomain(name))
  {
    BeforeWildcard(name);
    DropWildcardIsSuffix(ToLower(StripTrailingDots(Trim(name))));
  }

  lemma NormalizeShortens(name: string)
    ensures |NormalizeDomain(name)| <= |name|
    ensures |NormalizeDomain(name)| == |name| ==> Tight(name) && StripTrailingDots(name) == name && !HasWildcard(ToLower(name))
  {
    var a, b := TrimDecomposes(name);
    var v := ToLower(StripTrailingDots(Trim(name)));
    DropWildcardIsSuffix(v);
    if |NormalizeDomain(name)| == |name| { assert name[a..b] == name; }
  }

  /** Exactly the texts in normal form are left alone. */
  lemma FixedIffNormalForm(v: string)
    ensures NormalizeDomain(v) == v <==> NormalForm(v)
  {
    if NormalForm(v) {
      TrimTight(v); StripOfDotless(v); LowerOfLowered(v); DropWildcardIsSuffix(v);
    }
    if NormalizeDomain(v) == v {
      NormalizedIsDotless(v);
      NormalizeShortens(v);
      LowerOfLowered(v);
    }
  }

  lemma StableIffNormalForm(host: string)
    ensures Stable(host) <==> NormalForm(NormalizeDomain(host))
  {
    FixedIffNormalForm(NormalizeDomain(host));
  }

  lemma NormalizeAgainClean(name: string)
    requires Clean(name)
    ensures NormalizeDomain(NormalizeDomain(name)) == DropWildcard(NormalizeDomain(name))
  {
    var v := NormalizeDomain(name);
    NormalizedIsDotless(name);
    TrimTight(v); StripOfDotless(v); LowerOfLowered(v);
  }

  predicate NameTest(ind: string, obs: string) {
    ind != "" && obs != "" && (obs == ind || EndsWith(obs, "." + ind))
  }

  lemma SuffixSurvivesDrop(obs: string, k: nat, suffix: string)
    requires k + |suffix| <= |obs|
    ensures EndsWith(obs, suffix) <==> EndsWith(obs[k..], suffix)
  {
    assert obs[k..][|obs| - k - |suffix|..] == obs[|obs| - |suffix|..];
  }

  lemma DottedSuffix(obs: string, ind: string)
    requires |ind| < |obs|
    ensures EndsWith(obs, "." + ind) <==> obs[|obs| - |ind| - 1] == '.' && obs[|obs| - |ind|..] == ind
  {
    var at := |obs| - |ind| - 1;
    assert obs[at..] == [obs[at]] + obs[at + 1..];
    assert ("." + ind)[1..] == ind;
    if EndsWith(obs, "." + ind) { assert obs[at..][1..] == obs[at + 1..]; }
  }

  /** Dropping a wildcard from the observed name never changes the suffix test. */
  lemma DropWildcardKeepsTest(ind: string, obs: string)
    requires Dotless(obs) && !HasWildcard(ind)
    ensures NameTest(ind, obs) <==> NameTest(ind, DropWildcard(obs))
  {
    DropWildcardIsSuffix(obs);
    hide DropWildcard, EndsWith, StartsWith;
    var k :| 0 <= k <= 3 && k <= |obs| && DropWildcard(obs) == obs[k..] && (k > 0 ==> obs[k - 1] == '.');
    if ind != "" && obs != "" && k > 0 {
      assert obs[k - 1] == '.' && HasWildcard(obs);
      TestAcrossDrop(ind, obs, k);
    }
  }

  lemma TestAcrossDrop(ind: string, obs: string, k: nat)
    requires 0 < k <= 3 && k < |obs| && obs[k - 1] == '.' && DropWildcard(obs) == obs[k..]
    requires ind != "" && HasWildcard(obs) && !HasWildcard(ind)
    ensures NameTest(ind, obs) <==> NameTest(ind, obs[k..])
  {
    hide EndsWith, HasWildcard, DropWildcard;
    if |ind| < |obs| - k {
      SuffixSurvivesDrop(obs, k, "." + ind);
    } else if |ind| < |obs| {
      DottedSuffix(obs, ind);
      NoLongSuffix(obs[k..], "." + ind);
      if |ind| > |obs| - k && obs[|obs| - |ind| - 1] == '.' && obs[|obs| - |ind|..] == ind {
        LongSuffixHasWildcard(ind, obs, k);
      }
    } else {
      NoLongSuffix(obs, "." + ind);
      NoLongSuffix(obs[k..], "." + ind);
    }
  }

  lemma NoLongSuffix(s: string, suffix: string)
    requires |suffix| > |s|
    ensures !EndsWith(s, suffix)
  {}

  /** A suffix that reaches into the dropped wildcard starts with a dot or is not preceded by one. */
  lemma LongSuffixHasWildcard(ind: string, obs: string, k: nat)
    requires 0 < k <= 3 && k <= |obs| && |obs| - k < |ind| < |obs|
    requires DropWildcard(obs) == obs[k..]
    requires obs[|obs| - |ind| - 1] == '.' && obs[|obs| - |ind|..] == ind
    ensures HasWildcard(ind)
  {
    var at := |obs| - |ind|;
    assert ind[0] == obs[at];
    assert at == 1 || at == 2;
    assert obs[k - 1] == '.';
  }

  /**
   * For a stable host and a clean name the extra normalization is invisible,
   * even when the name itself would still change under it.
   */
  lemma IndexAgreesOnName(host: string, name: string)
    requires Stable(host) && Clean(name)
    ensures IndexMatchesName(host, name) == DomainMatches(host, name)
  {
    StableIffNormalForm(host);
    NormalizeAgainClean(name);
    NormalizedIsDotless(name);
    var ind, obs := NormalizeDomain(host), NormalizeDomain(name);
    DropWildcardKeepsTest(ind, obs);
    assert DomainMatches(host, name) == NameTest(ind, obs);
    assert IndexMatchesName(host, name) == NameTest(ind, DropWildcard(obs));
  }

  lemma NoSpacesIsClean(name: string)
    requires NoSpaces(name)
    ensures NoSpaces(NormalizeDomain(name)) && Clean(name)
  {
    assert forall i :: 0 <= i < |name| ==> !IsSpace(name[i]);
    TrimTight(name);
    var v := ToLower(StripTrailingDots(Trim(name)));
    assert NoSpaces(v) by {
      forall i | 0 <= i < |v| ensures !IsSpace(v[i]) { assert v[i] == LowerChar(StripTrailingDots(name)[i]); }
    }
    DropWildcardIsSuffix(v);
  }

  /** A space-free name that index and scan disagree about, for most hosts that are not stable. */
  function Witness(host: string): string { "a." + NormalizeDomain(NormalizeDomain(host)) }

  /** A second normalization that keeps the length keeps the text. */
  lemma ShrinksOrFixed(v: string)
    requires Dotless(v) && NormalizeDomain(v) != v
    ensures |NormalizeDomain(v)| < |v|
  {
    NormalizeShortens(v);
    if |NormalizeDomain(v)| == |v| { FixedIffNormalForm(v); }
  }

  lemma UnstableHostDisagrees(host: string)
    requires !Stable(host) && NormalizeDomain(NormalizeDomain(host)) != "" && NoSpaces(NormalizeDomain(NormalizeDomain(host)))
    ensures NoSpaces(Witness(host)) && NormalizeDomain(Witness(host)) == Witness(host)
    ensures IndexMatchesName(host, Witness(host)) && !DomainMatches(host, Witness(host))
  {
    hide Trim, ToLower, StripTrailingDots, DropWildcard, EndsWith, StartsWith;
    var n1 := NormalizeDomain(host);
    var n2 := NormalizeDomain(n1);
    NormalizedIsDotless(host);
    NormalizedIsDotless(n1);
    ShrinksOrFixed(n1);
    WitnessSeparates(n1, n2);
    var d := Witness(host);
    FixedIffNormalForm(d);
  }

  lemma WitnessSeparates(n1: string, n2: string)
    requires Dotless(n2) && NoSpaces(n2) && NormalizeDomain(n1) == n2 && |n2| < |n1| && n2 != ""
    ensures NormalForm("a." + n2) && NoSpaces("a." + n2) && NameTest(n2, "a." + n2) && !NameTest(n1, "a." + n2)
  {
    hide NormalizeDomain;
    var d := "a." + n2;
    assert d[0] == 'a' && d[1] == '.' && d[2..] == n2 && |d| == |n2| + 2;
    DottedSuffix(d, n2);
    assert d[|d| - 1] == n2[|n2| - 1];
    FixedIffNormalForm(d);
    if |n1| < |d| { DottedSuffix(d, n1); }
  }

  /** What a normalized text holds, its second normalization held before. */
  lemma SpacesStay(v: string)
    requires Dotless(v) && (!NoSpaces(NormalizeDomain(v)) || (NormalizeDomain(v) == "" && v != ""))
    ensures !NoSpaces(v)
  {
    if NoSpaces(v) {
      NoSpacesIsClean(v);
      TrimTight(v); StripOfDotless(v); LowerOfLowered(v); DropWildcardIsSuffix(v);
    }
  }

  lemma SuffixHasNoSpaces(obs: string, ind: string)
    requires NoSpaces(obs) && EndsWith(obs, "." + ind)
    ensures NoSpaces(ind)
  {
    forall i | 0 <= i < |ind| ensures !IsSpace(ind[i]) {
      assert ind[i] == ("." + ind)[i + 1] == obs[|obs| - |ind| + i];
    }
  }

  /** A host with a space in it, or no host, matches no space-free name. */
  lemma SpacedNeverMatches(ind: string, obs: string)
    requires ind == "" || !NoSpaces(ind)
    requires NoSpaces(obs)
    ensures !NameTest(ind, obs)
  {
    hide NoSpaces, EndsWith;
    if EndsWith(obs, "." + ind) { SuffixHasNoSpaces(obs, ind); }
  }

  /** Second normal forms that no space-free name can match. */
  predicate Unmatchable(v: string) { v == "" || !NoSpaces(v) }

  /** The exact condition on a host: stable, or never matched by a space-free name on either side. */
  predicate Agreeable(host: string) { Stable(host) || Unmatchable(NormalizeDomain(NormalizeDomain(host))) }

  lemma UnmatchableAgrees(host: string, name: string)
    requires Unmatchable(NormalizeDomain(NormalizeDomain(host))) && NoSpaces(name)
    ensures !IndexMatchesName(host, name) && !DomainMatches(host, name)
  {
    hide NormalizeDomain, EndsWith;
    var n1 := NormalizeDomain(host);
    NormalizedIsDotless(host);
    if n1 != "" { SpacesStay(n1); }
    NoSpacesIsClean(name);
    NoSpacesIsClean(NormalizeDomain(name));
    SpacedNeverMatches(n1, NormalizeDomain(name));
    SpacedNeverMatches(NormalizeDomain(n1), NormalizeDomain(NormalizeDomain(name)));
  }

  /**
   * Over space-free names, index and scan agree about a host exactly when a
   * second normalization changes nothing, or gives a text that no such name matches.
   */
  lemma AgreementIffStable(host: string)
    ensures (forall name: string | NoSpaces(name) :: IndexMatchesName(host, name) == DomainMatches(host, name))
            <==> Agreeable(host)
  {
    hide NormalizeDomain, NoSpaces, IndexMatchesName, DomainMatches, Unmatchable;
    if Stable(host) {
      forall name: string | NoSpaces(name) ensures IndexMatchesName(host, name) == DomainMatches(host, name) {
        NoSpacesIsClean(name);
        IndexAgreesOnName(host, name);
      }
    } else if Unmatchable(NormalizeDomain(NormalizeDomain(host))) {
      forall name: string | NoSpaces(name) ensures IndexMatchesName(host, name) == DomainMatches(host, name) {
        UnmatchableAgrees(host, name);
      }
    } else {
      MatchableText(NormalizeDomain(NormalizeDomain(host)));
      UnstableHostDisagrees(host);
    }
  }

  lemma MatchableText(v: string)
    ensures !Unmatchable(v) <==> v != "" && NoSpaces(v)
  {}

  /** Stability is visible on the normalized text: no surrounding space, leading dot or wildcard is left. */
  lemma StableIffNothingLeft(host: string)
    ensures Stable(host) <==> Tight(NormalizeDomain(host)) && !HasWildcard(NormalizeDomain(host))
  {
    StableIffNormalForm(host);
    NormalizedIsDotless(host);
  }

  /** A name that normalizes to the given text, the trailing dot protecting its end. */
  lemma NameFor(obs: string)
    requires Dotless(obs) && obs != "" && !IsSpace(obs[0]) && !HasWildcard(obs)
    ensures NormalizeDomain(obs + ".") == obs
  {
    var name := obs + ".";
    TrimTight(name);
    assert name[..|name| - 1] == obs;
    StripOfDotless(obs);
    LowerOfLowered(obs);
  }

  lemma {:induction false} TrailingSpaceTrimmed(v: string)
    requires v != "" && !IsSpace(v[0])
    ensures Trim(v + " ") == Trim(v)
  {
    assert (v + " ")[..|v|] == v && (v + " ")[0] == v[0];
  }

  lemma NotSuffixOfSpaced(v: string)
    requires v != ""
    ensures !EndsWith("a." + v + " ", "." + v) && "a." + v + " " != v
  {
    var d := "a." + v + " ";
    if EndsWith(d, "." + v) {
      assert d[|d| - |v| - 1..] == d[2..] == v + " ";
      ShiftedDot(v);
    }
  }

  lemma ShiftedDot(v: string)
    requires v != ""
    ensures "." + v != v + " "
  {
    assert ("." + v)[|v|] == v[|v| - 1] && (v + " ")[|v|] == ' ';
    if "." + v == v + " " { AllDots(v, |v| - 1); }
  }

  lemma {:induction false} AllDots(v: string, k: nat)
    requires "." + v == v + " " && k < |v|
    ensures v[k] == '.'
  {
    assert ("." + v)[k] == (v + " ")[k] == v[k];
    if k > 0 {
      AllDots(v, k - 1);
      assert ("." + v)[k] == v[k - 1];
    }
  }

  /**
   * Over all names nothing but the empty host agrees: two names that differ in
   * a protected trailing space look alike to the index, and only one matches the scan.
   */
  lemma NoHostAgreesOnAllNames(host: string)
    ensures (forall name :: IndexMatchesName(host, name) == DomainMatches(host, name)) <==> NormalizeDomain(host) == ""
  {
    hide Trim, StripTrailingDots, ToLower, DropWildcard, EndsWith, StartsWith;
    var v := NormalizeDomain(host);
    if v != "" {
      var one, two := "a." + v, "a." + v + " ";
      NormalizedIsDotless(host);
      TwoNames(v);
      DottedSuffix(one, v);
      assert one[|one| - |v| - 1] == '.' && one[|one| - |v|..] == v;
      NotSuffixOfSpaced(v);
      assert DomainMatches(host, one + ".") && !DomainMatches(host, two + ".");
      assert IndexMatchesName(host, one + ".") == IndexMatchesName(host, two + ".");
    } else {
      EmptyStaysEmpty();
    }
  }

  lemma EmptyStaysEmpty()
    ensures NormalizeDomain("") == ""
  {}

  lemma TwoNames(v: string)
    requires Dotless(v) && v != ""
    ensures var one, two := "a." + v, "a." + v + " ";
            && NormalizeDomain(one + ".") == one && NormalizeDomain(two + ".") == two
            && NormalizeDomain(one) == NormalizeDomain(two)
  {
    hide Trim, StripTrailingDots, ToLower, DropWildcard, NormalizeDomain;
    var one, two := "a." + v, "a." + v + " ";
    assert one[|one| - 1] == v[|v| - 1];
    NameFor(one);
    NameFor(two);
    TrailingSpaceTrimmed(one);
    SameTrimSameName(one, two);
  }

  lemma SameTrimSameName(a: string, b: string)
    requires Trim(a) == Trim(b)
    ensures NormalizeDomain(a) == NormalizeDomain(b)
  {}

  /**
   * A stored URL whose host still starts with two wildcards (the reader leaves
   * them when it is given three): the index reports the name, the scan does not.
   */
  lemma StackedWildcardUrl()
    ensures UrlHost("http://*.*.a.b/") == "*.*.a.b" && Witness("*.*.a.b") == "a.a.b"
    ensures NoSpaces("a.a.b") && NormalizeDomain("a.a.b") == "a.a.b"
    ensures IndexMatchesName("*.*.a.b", "a.a.b") && !DomainMatches("*.*.a.b", "a.a.b")
  {
    hide *;
    StackedWildcardHost();
    UnstableHostDisagrees("*.*.a.b");
    HostInBrackets("http", "*.*.a.b", "/");
    assert "http" + "://" + "*.*.a.b" + "/" == "http://*.*.a.b/";
  }

  lemma StackedWildcardHost()
    ensures !Stable("*.*.a.b") && NormalizeDomain(NormalizeDomain("*.*.a.b")) == "a.b" && NoSpaces("a.b")
    ensures Witness("*.*.a.b") == "a.a.b"
  {
    hide Trim, ToLower, StripTrailingDots, DropWildcard;
    DropOneWildcard("*.a.b");
    DropOneWildcard("a.b");
    assert "*." + "*.a.b" == "*.*.a.b" && "*." + "a.b" == "*.a.b" && "a." + "a.b" == "a.a.b";
  }

  lemma DropOneWildcard(rest: string)
    requires Dotless("*." + rest) && Tight("*." + rest) && rest != "" && rest[0] != '.'
    ensures NormalizeDomain("*." + rest) == rest
  {
    var h := "*." + rest;
    TrimTight(h); StripOfDotless(h); LowerOfLowered(h);
    assert h[..2] == "*." && h[2..] == rest;
  }

  lemma HostInBrackets(scheme: string, host: string, path: string)
    requires ':' !in scheme
    requires '/' !in host && path != "" && path[0] == '/'
    ensures UrlHost(scheme + "://" + host + path) == host
  {
    hide FindText, IndexOf;
    var tail := "://" + host + path;
    var u := scheme + "://" + host + path;
    assert u == scheme + tail;
    FirstColon(scheme, tail);
    var rest := tail[3..];
    assert u[|scheme| + 3..] == rest == host + path;
    SlashAt(host, path);
  }

  lemma FirstColon(scheme: string, tail: string)
    requires StartsWith(tail, "://") && ':' !in scheme
    ensures FindText(scheme + tail, "://") == |scheme|
  {
    var u := scheme + tail;
    assert u[|scheme|..] == tail;
    forall j | 0 <= j < |scheme| ensures !StartsWith(u[j..], "://") {
      assert u[j..][0] == scheme[j];
    }
    assert StartsWith(u[|scheme|..], "://");
  }

  lemma SlashAt(host: string, path: string)
    requires '/' !in host && path != "" && path[0] == '/'
    ensures IndexOf(host + path, '/') == |host| && (host + path)[..|host|] == host
  {
    assert forall i :: 0 <= i < |host| ==> (host + path)[i] == host[i];
    assert (host + path)[|host|] == '/';
  }

  lemma {:induction false} NoLastIndex(s: string, c: char)
    requires c !in s
    ensures LastIndexOf(s, c) == -1
  {
    if s != "" { NoLastIndex(s[..|s| - 1], c); }
  }

  /** A plain URL keeps its scheme and path; its host is normalized once, and not checked. */
  lemma PlainUrlNormalizes(host: string)
    requires NoSpaces(host) && '/' !in host && '@' !in host && ':' !in host
    ensures NormalizeUrl("http://" + host + "/") == "http://" + NormalizeDomain(host) + "/"
  {
    hide NormalizeDomain, FindText, IndexOf, LastIndexOf, Trim, StartsWith, ToLower;
    var url := "http://" + host + "/";
    var tail := "://" + host + "/";
    assert url == "http" + tail;
    assert Tight(url);
    TrimTight(url);
    assert StartsWith(tail, "://") by { StartsHere("://", host + "/"); assert tail == "://" + (host + "/"); }
    FirstColon("http", tail);
    assert url[..4] == "http" && url[7..] == host + "/";
    LowerHttp();
    SlashAt(host, "/");
    assert (host + "/")[|host|..] == "/";
    NoLastIndex(host, '@');
    NoLastIndex(host, ':');
    assert host[0..] == host;
    assert CollapseSlashes("/") == "/";
    assert "http" + "://" == "http://";
  }

  lemma LowerHttp()
    ensures ToLower("http") == "http"
  {}

  lemma StartsHere(p: string, rest: string)
    ensures StartsWith(p + rest, p)
  {}

  /** Without a scheme the text is taken for host and path of an http URL. */
  lemma BareHostNormalizes(host: string)
    requires NoSpaces(host) && '/' !in host && '@' !in host && ':' !in host
    ensures NormalizeUrl(host) == "http://" + NormalizeDomain(host) + "/"
  {
    hide NormalizeDomain, IndexOf, LastIndexOf, Trim, StartsWith, ToLower;
    assert Tight(host);
    TrimTight(host);
    NoScheme(host);
    NoLastIndex(host, '@');
    NoLastIndex(host, ':');
    assert IndexOf(host, '/') == |host|;
    assert host[..|host|] == host && host[0..] == host;
    assert CollapseSlashes("/") == "/";
    assert "http" + "://" == "http://";
  }

  lemma NoScheme(host: string)
    requires ':' !in host
    ensures FindText(host, "://") == |host|
  {
    hide FindText;
    forall k | 0 <= k < |host| ensures !StartsWith(host[k..], "://") { assert host[k..][0] == host[k]; }
  }
}
