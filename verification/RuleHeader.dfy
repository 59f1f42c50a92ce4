/** The seven header tokens of a rule: printed with spaces between them, collapsed, and cut into words again. */
module RuleHeader {
  import opened Text
  import opened Ipv4
  import opened Exprs
  import opened Signature

  /** No space and no opening parenthesis: what every header token of a read line is. */
  predicate Clear(s: string) { forall i :: 0 <= i < |s| ==> !IsSpace(s[i]) && s[i] != '(' }

  predicate AllClear(parts: seq<string>) { forall i :: 0 <= i < |parts| ==> Clear(parts[i]) }

  lemma {:induction false} ClearJoin(parts: seq<string>)
    requires AllClear(parts)
    ensures Clear(Join(parts, ','))
  {
    if |parts| > 1 { ClearJoin(parts[1..]); }
  }

  lemma PortsAreClear(e: PortExpr)
    ensures Clear(PortToString(e))
  {
    hide RangeText, Join;
    forall i | 0 <= i < |e.ranges| ensures Clear(RangeTexts(e.ranges)[i]) { RangeShape(e.ranges[i]); }
    ClearJoin(RangeTexts(e.ranges));
  }

  lemma NetworkIsClear(r: CidrRange)
    requires r.prefix <= 32
    ensures Clear(CidrToString(r))
  {
    hide CidrToString;
    CidrShape(r);
  }

  lemma AddressesAreClear(e: AddressExpr)
    requires Printable(e) && forall v :: v in e.variables ==> Clear(v)
    ensures Clear(AddressToString(e))
  {
    hide CidrToString, Join;
    var parts := NetworkTexts(e.ranges) + e.variables;
    forall i | 0 <= i < |parts| ensures Clear(parts[i]) {
      if i < |e.ranges| { NetworkIsClear(e.ranges[i]); } else { assert parts[i] in e.variables; }
    }
    ClearJoin(parts);
  }

  lemma ActionReads(a: RuleAction)
    requires a != UnknownAction
    ensures Clear(ActionName(a)) && ActionName(a) != "" && ParseAction(ActionName(a)) == Some(a)
  {
    var t := ActionName(a);
    assert forall i :: 0 <= i < |t| ==> 'a' <= t[i] <= 'z';
    assert ToLower(t) == t;
  }

  lemma ProtocolReads(p: Protocol)
    requires p != UnknownProto
    ensures Clear(ProtocolName(p)) && ParseProtocol(ProtocolName(p)) == Some(p)
  {
    var t := ProtocolName(p);
    assert forall i :: 0 <= i < |t| ==> 'a' <= t[i] <= 'z';
    assert ToLower(t) == t;
  }

  // ---- words ----

  lemma {:induction false} CollapseWord(word: string, rest: string, afterSpace: bool)
    requires NoSpaces(word) && word != ""
    ensures CollapseFrom(word + rest, afterSpace) == word + CollapseFrom(rest, false)
  {
    assert (word + rest)[1..] == word[1..] + rest;
    if |word| == 1 {
      assert word[1..] + rest == rest;
    } else {
      CollapseWord(word[1..], rest, false);
      assert word == [word[0]] + word[1..];
    }
  }

  lemma CollapseSpace(rest: string, afterSpace: bool)
    ensures CollapseFrom(" " + rest, afterSpace) == (if afterSpace then "" else " ") + CollapseFrom(rest, true)
  {
    assert (" " + rest)[1..] == rest;
  }

  /** Collapsing leaves one space behind every token that is not empty. */
  lemma {:induction false} CollapseSpaced(tokens: seq<string>)
    requires AllClear(tokens)
    ensures CollapseFrom(Spaced(tokens), true) == Spaced(NonEmpty(tokens))
  {
    hide CollapseFrom;
    if tokens == [] {
      NothingCollapsed();
    } else {
      var t, rest := tokens[0], Spaced(tokens[1..]);
      assert Clear(t);
      CollapseSpaced(tokens[1..]);
      CollapseSpace(rest, t == "");
      if t == "" {
        assert Spaced(tokens) == " " + rest;
        assert NonEmpty(tokens) == NonEmpty(tokens[1..]);
        assert "" + Spaced(NonEmpty(tokens)) == Spaced(NonEmpty(tokens));
      } else {
        CollapseWord(t, " " + rest, true);
        assert Spaced(tokens) == t + (" " + rest);
        SpacedCons(t, NonEmpty(tokens[1..]));
      }
    }
  }

  lemma NothingCollapsed()
    ensures CollapseFrom("", true) == ""
  {}

  lemma SpacedCons(t: string, rest: seq<string>)
    ensures Spaced([t] + rest) == t + (" " + Spaced(rest))
  {
    assert ([t] + rest)[1..] == rest;
  }

  lemma {:induction false} SpacedIsJoin(tokens: seq<string>)
    requires tokens != []
    ensures Spaced(tokens) == Join(tokens, ' ') + " "
  {
    if |tokens| == 1 {
      assert tokens[1..] == [];
    } else {
      SpacedIsJoin(tokens[1..]);
    }
  }

  lemma {:induction false} JoinedTight(tokens: seq<string>)
    requires tokens != [] && AllClear(tokens) && forall i :: 0 <= i < |tokens| ==> tokens[i] != ""
    ensures var s := Join(tokens, ' '); s != "" && Tight(s)
    decreases |tokens|
  {
    assert Clear(tokens[0]) && tokens[0] != "";
    if |tokens| > 1 {
      JoinedTight(tokens[1..]);
      var rest := Join(tokens[1..], ' ');
      var s := Join(tokens, ' ');
      assert s == tokens[0] + " " + rest;
      assert s[|s| - 1] == rest[|rest| - 1];
    }
  }

  lemma WordsAfterSpace(s: string)
    ensures Words(" " + s) == Words(s)
  {
    assert (" " + s)[1..] == s;
  }

  lemma {:induction false} WordsOfJoin(tokens: seq<string>)
    requires AllClear(tokens) && forall i :: 0 <= i < |tokens| ==> tokens[i] != ""
    ensures Words(Join(tokens, ' ')) == tokens
    decreases |tokens|
  {
    hide Words;
    if tokens == [] {
      NoWords();
    } else {
      assert Clear(tokens[0]) && tokens[0] != "";
      if |tokens| == 1 {
        assert tokens[0] + "" == tokens[0];
        WordFirst(tokens[0], "");
        NoWords();
      } else {
        var rest := Join(tokens[1..], ' ');
        WordsOfJoin(tokens[1..]);
        WordFirst(tokens[0], " " + rest);
        WordsAfterSpace(rest);
        assert Join(tokens, ' ') == tokens[0] + (" " + rest);
        assert tokens == [tokens[0]] + tokens[1..];
      }
    }
  }

  lemma TrimTrailing(s: string)
    requires s != "" && Tight(s)
    ensures Trim(s + " ") == s
  {
    assert (s + " ")[..|s|] == s && (s + " ")[0] == s[0];
    assert TrimRight(s) == s;
  }

  lemma {:induction false} NonEmptyLength(tokens: seq<string>)
    ensures |NonEmpty(tokens)| <= |tokens| && (|NonEmpty(tokens)| == |tokens| ==> NonEmpty(tokens) == tokens)
  {
    hide NonEmpty;
    if tokens == [] {
      NothingKept();
    } else {
      NonEmptyLength(tokens[1..]);
      NonEmptyStep(tokens);
      assert tokens == [tokens[0]] + tokens[1..];
    }
  }

  lemma NothingKept()
    ensures NonEmpty([]) == []
  {}

  lemma NonEmptyStep(tokens: seq<string>)
    requires tokens != []
    ensures NonEmpty(tokens) == if tokens[0] == "" then NonEmpty(tokens[1..]) else [tokens[0]] + NonEmpty(tokens[1..])
  {}

  lemma NonEmptyClear(tokens: seq<string>)
    requires AllClear(tokens)
    ensures AllClear(NonEmpty(tokens)) && forall i :: 0 <= i < |NonEmpty(tokens)| ==> NonEmpty(tokens)[i] != ""
    ensures |NonEmpty(tokens)| <= |tokens| && (|NonEmpty(tokens)| == |tokens| ==> NonEmpty(tokens) == tokens)
  {
    hide NonEmpty, Clear;
    NonEmptyLength(tokens);
    NonEmptySubset(tokens);
    var kept := NonEmpty(tokens);
    forall i | 0 <= i < |kept| ensures Clear(kept[i]) && kept[i] != "" {
      assert kept[i] in kept;
      var j :| 0 <= j < |tokens| && tokens[j] == kept[i];
    }
  }

  lemma StartsNonSpace(s: string)
    requires s != "" && !IsSpace(s[0])
    ensures CollapseFrom(s, false) == CollapseFrom(s, true)
  {}

  /** Collapsing and cutting the printed tokens gives them back, except for the empty ones. */
  lemma HeaderReads(tokens: seq<string>)
    requires tokens != [] && tokens[0] != "" && AllClear(tokens)
    ensures Words(CollapseSpaces(Spaced(tokens))) == NonEmpty(tokens)
    ensures Spaced(tokens) != "" && !IsSpace(Spaced(tokens)[0])
  {
    hide Words, Join, CollapseFrom, Trim;
    var kept := NonEmpty(tokens);
    assert Clear(tokens[0]);
    assert kept != [];
    NonEmptyClear(tokens);
    StartsNonSpace(Spaced(tokens));
    CollapseSpaced(tokens);
    SpacedIsJoin(kept);
    JoinedTight(kept);
    WordsOfJoin(kept);
    TrimTrailing(Join(kept, ' '));
  }

  lemma {:induction false} SpacedHasNoParen(tokens: seq<string>)
    requires AllClear(tokens)
    ensures '(' !in Spaced(tokens)
  {
    if tokens != [] {
      assert Clear(tokens[0]);
      SpacedHasNoParen(tokens[1..]);
    }
  }

  // ---- what is left of a printed line, and where it is cut ----

  lemma {:induction false} TrimRightPrefix(s: string) returns (d: nat)
    ensures d <= |s| && TrimRight(s) == s[..d] && forall i :: d <= i < |s| ==> IsSpace(s[i])
  {
    d := TrimRightDecomposes(s);
  }

  /** Without its comment and spaces around, a line that starts with no space is a prefix of itself. */
  lemma CleanIsPrefix(line: string) returns (d: nat)
    requires line != "" && !IsSpace(line[0])
    ensures d <= |RemoveComment(line)| <= |line| && Trim(RemoveComment(line)) == line[..d]
    ensures forall i :: d <= i < |RemoveComment(line)| ==> IsSpace(line[i])
  {
    hide CommentStart, TrimRight;
    var kept := RemoveComment(line);
    assert TrimLeft(kept) == kept by { if kept != "" { assert kept[0] == line[0]; } }
    d := TrimRightPrefix(kept);
    assert kept[..d] == line[..d];
  }

  /** The option block that reading finds: a piece of the printed one. */
  lemma LineIsCut(header: string, body: string) returns (n: nat)
    requires header != "" && !IsSpace(header[0]) && '(' !in header
    requires var clean := Trim(RemoveComment(header + "(" + body + ")"));
             IndexOf(clean, '(') < |clean| && LastIndexOf(clean, ')') >= IndexOf(clean, '(')
    ensures var line := header + "(" + body + ")";
            var clean := Trim(RemoveComment(line));
            var close := LastIndexOf(clean, ')');
            && IndexOf(clean, '(') == |header| < close && clean[..|header|] == header
            && n <= |body| && (n < |body| ==> body[n] == ')') && clean[|header| + 1..close] == body[..n]
            && (n == |body| ==> RemoveComment(line) == line)
  {
    hide Trim, RemoveComment, IndexOf, LastIndexOf;
    var line := header + "(" + body + ")";
    assert line[0] == header[0];
    var d := CleanIsPrefix(line);
    var clean := line[..d];
    var open, close := IndexOf(clean, '('), LastIndexOf(clean, ')');
    OpenStands(header, body, d);
    assert clean[close] == ')';
    n := close - open - 1;
    BodyStands(header, body, d, close);
    if n == |body| { WholeLine(line); }
  }

  lemma OpenStands(header: string, body: string, d: nat)
    requires '(' !in header && d <= |header + "(" + body + ")"|
    requires IndexOf((header + "(" + body + ")")[..d], '(') < d
    ensures IndexOf((header + "(" + body + ")")[..d], '(') == |header| < d && (header + "(" + body + ")")[..d][..|header|] == header
  {
    hide IndexOf;
    var line := header + "(" + body + ")";
    assert forall i :: 0 <= i < |header| ==> line[i] == header[i];
    assert line[|header|] == '(';
  }

  lemma BodyStands(header: string, body: string, d: nat, close: nat)
    requires var line := header + "(" + body + ")"; |header| < close < d <= |line| && line[close] == ')'
    ensures var line, n := header + "(" + body + ")", close - |header| - 1;
            n <= |body| && (n < |body| ==> body[n] == ')') && line[..d][|header| + 1..close] == body[..n]
  {
    var line := header + "(" + body + ")";
    var n := close - |header| - 1;
    assert forall i :: 0 <= i < |body| ==> line[|header| + 1 + i] == body[i];
    assert line[..d][|header| + 1..close] == line[|header| + 1..close];
    assert line[|header| + 1..close] == body[..n];
  }

  lemma WholeLine(line: string)
    requires |RemoveComment(line)| == |line|
    ensures RemoveComment(line) == line
  {
    hide CommentStart;
    assert line[..|line|] == line;
  }
}
