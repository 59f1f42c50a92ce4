/**
 * How a printed option list is cut into parts again. The splitter looks for
 * semicolons outside quotes and escapes; an option survives exactly when the
 * first such semicolon stands right behind its text.
 */
module OptionScan {
  import opened Text
  import opened Signature

  /** Position of the first separating semicolon, or the length, scanning with quote and escape state. */
  function FirstSeparator(s: string, inQuote: bool, escaped: bool): (p: nat)
    ensures p <= |s| && (p < |s| ==> s[p] == ';')
  {
    if s == "" then 0
    else if escaped then 1 + FirstSeparator(s[1..], inQuote, false)
    else if s[0] == '\\' then 1 + FirstSeparator(s[1..], inQuote, true)
    else if s[0] == '"' then 1 + FirstSeparator(s[1..], !inQuote, false)
    else if s[0] == ';' && !inQuote then 0
    else 1 + FirstSeparator(s[1..], inQuote, false)
  }

  /** Quote and escape state after a character. */
  function QuoteNext(c: char, inQuote: bool, escaped: bool): bool { if !escaped && c == '"' then !inQuote else inQuote }

  predicate EscapeNext(c: char, escaped: bool) { !escaped && c == '\\' }

  predicate Separates(c: char, inQuote: bool, escaped: bool) { c == ';' && !inQuote && !escaped }

  lemma SeparatorStep(s: string, inQuote: bool, escaped: bool)
    ensures FirstSeparator(s, inQuote, escaped) ==
            if s == "" || Separates(s[0], inQuote, escaped) then 0
            else 1 + FirstSeparator(s[1..], QuoteNext(s[0], inQuote, escaped), EscapeNext(s[0], escaped))
  {}

  lemma SplitStep(s: string, cur: string, inQuote: bool, escaped: bool)
    requires s != ""
    ensures SplitBody(s, cur, inQuote, escaped) ==
            if Separates(s[0], inQuote, escaped) then PushPart(cur) + SplitBody(s[1..], "", false, false)
            else SplitBody(s[1..], cur + [s[0]], QuoteNext(s[0], inQuote, escaped), EscapeNext(s[0], escaped))
  {
    hide PushPart;
  }

  /** The splitter cuts at the first separator and starts over behind it. */
  lemma {:induction false} SplitAtSeparator(s: string, cur: string, inQuote: bool, escaped: bool)
    ensures var p := FirstSeparator(s, inQuote, escaped);
            SplitBody(s, cur, inQuote, escaped) ==
              PushPart(cur + s[..p]) + (if p == |s| then [] else SplitBody(s[p + 1..], "", false, false))
    decreases |s|
  {
    hide FirstSeparator, SplitBody, PushPart, Separates, QuoteNext, EscapeNext;
    var p := FirstSeparator(s, inQuote, escaped);
    SeparatorStep(s, inQuote, escaped);
    if s == "" {
      assert cur + s[..0] == cur;
      NothingLeft(cur, inQuote, escaped);
    } else {
      SplitStep(s, cur, inQuote, escaped);
      if p == 0 {
        assert cur + s[..0] == cur;
      } else {
        var tail := s[1..];
        SplitAtSeparator(tail, cur + [s[0]], QuoteNext(s[0], inQuote, escaped), EscapeNext(s[0], escaped));
        assert cur + [s[0]] + tail[..p - 1] == cur + s[..p];
        assert p < |s| ==> tail[p..] == s[p + 1..];
      }
    }
  }

  lemma NothingLeft(cur: string, inQuote: bool, escaped: bool)
    ensures SplitBody("", cur, inQuote, escaped) == PushPart(cur) + []
  {}

  /** Cutting the text does not move a separator before the cut. */
  lemma {:induction false} CutSeparator(s: string, n: nat, inQuote: bool, escaped: bool)
    requires n <= |s|
    ensures var p := FirstSeparator(s, inQuote, escaped); FirstSeparator(s[..n], inQuote, escaped) == if p < n then p else n
    decreases n
  {
    hide FirstSeparator, Separates, QuoteNext, EscapeNext;
    SeparatorStep(s, inQuote, escaped);
    SeparatorStep(s[..n], inQuote, escaped);
    if n > 0 {
      assert s[..n][1..] == s[1..][..n - 1];
      CutSeparator(s[1..], n - 1, QuoteNext(s[0], inQuote, escaped), EscapeNext(s[0], escaped));
    }
  }

  /** No semicolon of the text separates, and behind it a semicolon would. */
  predicate Whole(t: string, inQuote: bool, escaped: bool) {
    if t == "" then !inQuote && !escaped
    else if escaped then Whole(t[1..], inQuote, false)
    else if t[0] == '\\' then Whole(t[1..], inQuote, true)
    else if t[0] == '"' then Whole(t[1..], !inQuote, false)
    else (t[0] != ';' || inQuote) && Whole(t[1..], inQuote, false)
  }

  lemma {:induction false} WholeIff(t: string, tail: string, inQuote: bool, escaped: bool)
    requires tail != "" && tail[0] == ';'
    ensures Whole(t, inQuote, escaped) <==> FirstSeparator(t + tail, inQuote, escaped) == |t|
    decreases |t|
  {
    if t == "" {
      assert t + tail == tail;
    } else {
      assert (t + tail)[1..] == t[1..] + tail;
      WholeIff(t[1..], tail, if !escaped && t[0] == '"' then !inQuote else inQuote, !escaped && t[0] == '\\');
    }
  }

  /** Printed and read back, the option is cut out as it stands. */
  predicate Kept(o: RuleOption) { Whole(OptionText(o), false, false) }

  /** Keys as reading leaves them: trimmed, in lower case, without a colon or a separator. */
  predicate ReadKey(k: string) {
    && k != "" && Tight(k) && ToLower(k) == k && ':' !in k
    && FirstSeparator(k, false, false) == |k|
  }

  // ---- trimming ----

  lemma {:induction false} TrimRightKeeps(a: string, b: string)
    requires a != "" && !IsSpace(a[|a| - 1])
    ensures TrimRight(a + b) == a + TrimRight(b)
    decreases |b|
  {
    if b == "" {
      assert a + b == a;
    } else {
      assert (a + b)[|a + b| - 1] == b[|b| - 1];
      assert (a + b)[..|a + b| - 1] == a + b[..|b| - 1];
      if IsSpace(b[|b| - 1]) { TrimRightKeeps(a, b[..|b| - 1]); }
    }
  }

  lemma TrimPadded(pad: string, a: string, b: string)
    requires (pad == "" || pad == " ") && a != "" && !IsSpace(a[0]) && !IsSpace(a[|a| - 1])
    ensures Trim(pad + (a + b)) == a + TrimRight(b)
  {
    hide TrimRight;
    var s := a + b;
    assert s[0] == a[0];
    assert TrimLeft(s) == s;
    if pad == " " { assert (pad + s)[1..] == s; } else { assert pad + s == s; }
    TrimRightKeeps(a, b);
  }

  lemma TrimPrefixed(a: string, b: string)
    requires a != "" && !IsSpace(a[0]) && !IsSpace(a[|a| - 1])
    ensures Trim(a + b) == a + TrimRight(b)
  {
    hide Trim;
    assert "" + (a + b) == a + b;
    TrimPadded("", a, b);
  }

  lemma {:induction false} TrimRightShrinks(s: string)
    ensures TrimRight(s) <= s && (TrimRight(s) != "" ==> !IsSpace(TrimRight(s)[|TrimRight(s)| - 1]))
  {
    if s != "" && IsSpace(s[|s| - 1]) { TrimRightShrinks(s[..|s| - 1]); }
  }

  // ---- a part that ends too early or too late reads as another option ----

  /** A part that starts with the key and a semicolon has a longer key. */
  lemma LongerKey(k: string, z: string)
    requires ReadKey(k)
    ensures var x := (k + ";") + TrimRight(z); ReadOption(x).key != k && ReadOption(x).key != ""
  {
    hide Trim, TrimRight, ToLower, StripQuotes, FirstSeparator;
    var x := (k + ";") + TrimRight(z);
    assert forall i :: 0 <= i < |k| ==> x[i] == k[i];
    assert x[|k|] == ';';
    var colon := IndexOf(x, ':');
    assert colon > |k|;
    var y := if colon == |x| then x else x[..colon];
    var z' := y[|k| + 1..];
    assert y == (k + ";") + z';
    TrimPrefixed(k + ";", z');
    assert |Trim(y)| > |k|;
  }

  /** A part that is only a piece of the key. */
  lemma ShorterKey(k: string, n: nat, pad: string)
    requires ReadKey(k) && n < |k| && (pad == "" || pad == " ")
    ensures ReadOption(Trim(pad + k[..n])).key != k
  {
    hide StripQuotes, FirstSeparator, TrimLeft, TrimRight;
    var s := pad + k[..n];
    var a, b := TrimDecomposes(s);
    var x := Trim(s);
    assert |x| <= |k|;
    assert forall i :: 0 <= i < |x| ==> x[i] == s[a + i];
    assert ':' !in x;
    assert IndexOf(x, ':') == |x|;
    TrimTight(x);
    if x == k { PieceIsShorter(k, n, pad, a, b); }
  }

  lemma PieceIsShorter(k: string, n: nat, pad: string, a: nat, b: nat)
    requires k != "" && !IsSpace(k[0]) && n < |k| && (pad == "" || pad == " ") && a <= b <= |pad + k[..n]|
    ensures (pad + k[..n])[a..b] != k
  {
    var s := pad + k[..n];
    if b - a == |k| { assert a == 0 && pad == " " && s[a..b][0] == s[0]; }
  }

  /** Reading the part behind the opening quote gives the value only when the part ends at the closing one. */
  lemma ValueEnds(v: string, rest: string, m: nat)
    requires var w := v + ("\"; " + rest); m <= |w| && (m < |w| ==> w[m] == ';' || w[m] == ')')
    ensures StripQuotes("\"" + TrimRight((v + ("\"; " + rest))[..m])) == v ==> m == |v| + 1
  {
    hide TrimRight;
    var w := v + ("\"; " + rest);
    var y := "\"" + TrimRight(w[..m]);
    TrimRightShrinks(w[..m]);
    StripsTo(y);
    assert w[|v|] == '"';
    if m < |v| {
      assert w[..m] == v[..m] && w[m] == v[m];
      ShiftedQuotes(v, m);
    } else if m > |v| + 1 {
      LongValue(v, "; " + rest, m - |v| - 1);
      assert w[..m] == (v + "\"") + ("; " + rest)[..m - |v| - 1];
    }
  }

  lemma StripsTo(y: string)
    requires y != "" && y[0] == '"' && !IsSpace(y[|y| - 1])
    ensures StripQuotes(y) == if |y| >= 2 && y[|y| - 1] == '"' then y[1..|y| - 1] else y
  {
    TrimTight(y);
  }

  /** A quote in front of a piece of a text never spells the text: it would be made of quotes only. */
  lemma ShiftedQuotes(v: string, m: nat)
    requires m < |v| && (v[m] == ';' || v[m] == ')')
    ensures v != "\"" + TrimRight(v[..m])
  {
    hide TrimRight;
    TrimRightShrinks(v[..m]);
    if v == "\"" + TrimRight(v[..m]) {
      assert TrimRight(v[..m]) == v[..m] == v[..|v| - 1];
      AllQuotes(v, m);
    }
  }

  lemma {:induction false} AllQuotes(v: string, k: nat)
    requires v != "" && v == "\"" + v[..|v| - 1] && k < |v|
    ensures v[k] == '"'
  {
    if k > 0 {
      AllQuotes(v, k - 1);
      assert v[k] == ("\"" + v[..|v| - 1])[k] == v[k - 1];
    }
  }

  lemma LongValue(v: string, tail: string, n: nat)
    requires tail != "" && tail[0] == ';' && 0 < n <= |tail|
    ensures |TrimRight((v + "\"") + tail[..n])| > |v| + 1
  {
    hide TrimRight;
    var z := tail[..n];
    assert z == ";" + z[1..];
    TrimRightKeeps(v + "\"", z);
    TrimRightKeeps(";", z[1..]);
  }

  // ---- the whole list ----

  lemma OptionReadsBack(o: RuleOption)
    requires ReadKey(o.key)
    ensures ReadOption(OptionText(o)) == o
  {
    hide Trim, StripQuotes, ToLower, FirstSeparator, IndexOf;
    TrimTight(o.key);
    var t := OptionText(o);
    if o.value == "true" {
      assert t == o.key;
    } else {
      ValueReads(o.value);
      var quoted := "\"" + o.value + "\"";
      ColonFollows(o.key, quoted);
      assert t == o.key + (":" + quoted);
    }
  }

  lemma ValueReads(v: string)
    ensures StripQuotes(Trim("\"" + v + "\"")) == v
  {
    hide Trim;
    var q := "\"" + v + "\"";
    TrimTight(q);
    assert q[1..|q| - 1] == v;
  }

  lemma ColonFollows(k: string, rest: string)
    requires ':' !in k
    ensures var t := k + (":" + rest); IndexOf(t, ':') == |k| < |t| && t[..|k|] == k && t[|k| + 1..] == rest
  {
    var t := k + (":" + rest);
    assert forall i :: 0 <= i < |k| ==> t[i] == k[i];
    assert t[|k|] == ':';
  }

  lemma OptionsTextCons(options: seq<RuleOption>)
    requires options != []
    ensures OptionsText(options) == OptionText(options[0]) + ("; " + OptionsText(options[1..]))
  {
    hide OptionText;
  }

  lemma OptionTight(o: RuleOption)
    requires ReadKey(o.key)
    ensures OptionText(o) != "" && Tight(OptionText(o))
  {
    hide FirstSeparator, ToLower;
    var t := OptionText(o);
    assert t[0] == o.key[0];
    if o.value == "true" { assert t == o.key; } else { assert t[|t| - 1] == '"'; }
  }

  /** Where a piece of a printed option list may end: at its end, or in front of a closing parenthesis. */
  predicate PieceEnds(text: string, n: nat) { n <= |text| && (n < |text| ==> text[n] == ')') }

  /** The first part of a piece reads as the first option only when it ends behind that option's text. */
  lemma FirstPartEnds(o: RuleOption, rest: string, n: nat, pad: string)
    requires ReadKey(o.key) && (pad == "" || pad == " ")
    requires PieceEnds(OptionText(o) + ("; " + rest), n)
    ensures var text := OptionText(o) + ("; " + rest);
            var p := FirstSeparator(text[..n], false, false);
            var x := Trim(pad + text[..p]);
            && (p >= |o.key| ==> x != "" && ReadOption(x).key != "")
            && (p < |o.key| ==> p == n)
            && (ReadOption(x) == o ==> p == |OptionText(o)| && n >= p + 2)
  {
    hide FirstSeparator, StripQuotes, Trim, TrimRight, ToLower;
    var k, t := o.key, OptionText(o);
    var text := t + ("; " + rest);
    var p := FirstSeparator(text[..n], false, false);
    KeyHasNoSeparator(k, text, n);
    assert text[..n][..p] == text[..p];
    assert text[..|k|] == k;
    if p < |k| {
      assert text[..p] == k[..p];
      ShorterKey(k, p, pad);
    } else if o.value == "true" {
      PartOfBareOption(k, rest, n, p, pad);
    } else {
      assert t == k + ":\"" + o.value + "\"";
      PartOfQuotedOption(k, o.value, rest, n, p, pad);
    }
  }

  lemma KeyHasNoSeparator(k: string, text: string, n: nat)
    requires ReadKey(k) && k <= text && n <= |text|
    ensures FirstSeparator(text[..n], false, false) >= if n < |k| then n else |k|
  {
    CutSeparator(text, n, false, false);
    CutSeparator(text, |k|, false, false);
    assert text[..|k|] == k;
  }

  lemma PartOfBareOption(k: string, rest: string, n: nat, p: nat, pad: string)
    requires ReadKey(k) && (pad == "" || pad == " ")
    requires PieceEnds(k + ("; " + rest), n) && |k| <= p <= n && (p < n ==> (k + ("; " + rest))[p] == ';')
    ensures var text := k + ("; " + rest);
            var x := Trim(pad + text[..p]);
            x != "" && ReadOption(x).key != "" && (ReadOption(x).key == k ==> p == |k| && n >= p + 2)
  {
    hide FirstSeparator, StripQuotes, Trim, TrimRight, ToLower;
    var text := k + ("; " + rest);
    assert text[|k|] == ';' && text[|k| + 1] == ' ';
    if p == |k| {
      assert text[..p] == k + "";
      TrimPadded(pad, k, "");
      NothingRight();
      assert k + "" == k;
      NoColonKey(k);
    } else {
      var z := text[|k| + 1..p];
      assert text[..p] == (k + ";") + z;
      TrimPadded(pad, k + ";", z);
      LongerKey(k, z);
    }
  }

  lemma NothingRight()
    ensures TrimRight("") == ""
  {}

  lemma NoColonKey(k: string)
    requires ReadKey(k)
    ensures ReadOption(k).key == k
  {
    hide FirstSeparator;
    TrimTight(k);
    assert IndexOf(k, ':') == |k|;
  }

  lemma PartOfQuotedOption(k: string, v: string, rest: string, n: nat, p: nat, pad: string)
    requires ReadKey(k) && (pad == "" || pad == " ")
    requires var text := (k + ":\"" + v + "\"") + ("; " + rest);
             PieceEnds(text, n) && |k| <= p <= n && (p < n ==> text[p] == ';')
    ensures var text := (k + ":\"" + v + "\"") + ("; " + rest);
            var x := Trim(pad + text[..p]);
            x != "" && ReadOption(x).key != "" && (ReadOption(x).value == v ==> p == |k| + |v| + 3 && n >= p + 2)
  {
    hide FirstSeparator, StripQuotes, Trim, TrimRight, ToLower;
    var text := (k + ":\"" + v + "\"") + ("; " + rest);
    var w := v + ("\"; " + rest);
    assert text == (k + ":\"") + w;
    assert text[|k|] == ':' && text[|k| + 1] == '"';
    var m := p - |k| - 2;
    assert text[..p] == (k + ":\"") + w[..m];
    assert m < |w| ==> w[m] == text[p];
    TrimPadded(pad, k + ":\"", w[..m]);
    var x := (k + ":\"") + TrimRight(w[..m]);
    assert x == k + (":" + ("\"" + TrimRight(w[..m])));
    ColonFollows(k, "\"" + TrimRight(w[..m]));
    KeyReads(k);
    QuotedTight(w[..m]);
    ValueEnds(v, rest, m);
    assert w[|v|] == '"' && w[|v| + 1] == ';' && w[|v| + 2] == ' ';
    assert p < |text| && p + 1 < |text| ==> text[p + 1] == w[m + 1];
  }

  lemma KeyReads(k: string)
    requires ReadKey(k)
    ensures ToLower(Trim(k)) == k
  {
    hide ToLower, FirstSeparator;
    TrimTight(k);
  }

  lemma QuotedTight(w: string)
    ensures Trim("\"" + TrimRight(w)) == "\"" + TrimRight(w)
  {
    hide TrimRight, Trim;
    TrimRightShrinks(w);
    TrimTight("\"" + TrimRight(w));
  }

  /** Reading a piece of a printed list gives the list only when the piece is all of it and every option is kept. */
  lemma {:induction false} PieceReads(options: seq<RuleOption>, n: nat, pad: string)
    requires forall o :: o in options ==> ReadKey(o.key)
    requires PieceEnds(OptionsText(options), n) && (pad == "" || pad == " ")
    requires ReadOptions(SplitBody(OptionsText(options)[..n], pad, false, false)) == options
    ensures n == |OptionsText(options)| && forall o :: o in options ==> Kept(o)
    decreases |options|
  {
    hide SplitBody, OptionText, ReadOption, ReadOptions, PushPart, OptionsText, ReadKey, FirstSeparator, Whole, Trim;
    if options == [] {
      NoOptionsText();
    } else {
      var o, rest := options[0], OptionsText(options[1..]);
      var t, text := OptionText(o), OptionsText(options);
      assert o in options;
      OptionsTextCons(options);
      var s := text[..n];
      var p := FirstSeparator(s, false, false);
      SplitAtSeparator(s, pad, false, false);
      FirstPartEnds(o, rest, n, pad);
      assert s[..p] == text[..p];
      FirstRead(pad + s[..p], if p == |s| then [] else SplitBody(s[p + 1..], "", false, false), options, p < |o.key|);
      assert p == |t|;
      KeptHere(o, rest, n);
      TailOfPiece(t, rest, n);
      SpaceIsPadding(rest[..n - p - 2]);
      PieceReads(options[1..], n - p - 2, " ");
      assert forall o' :: o' in options ==> o' == o || o' in options[1..];
    }
  }

  lemma TailOfPiece(t: string, rest: string, n: nat)
    requires n >= |t| + 2 && PieceEnds(t + ("; " + rest), n)
    ensures PieceEnds(rest, n - |t| - 2)
    ensures (t + ("; " + rest))[..n][|t| + 1..] == " " + rest[..n - |t| - 2]
  {
    var text := t + ("; " + rest);
    assert forall i :: |t| + 2 <= i < |text| ==> text[i] == rest[i - |t| - 2];
  }

  lemma NoOptionsText()
    ensures OptionsText([]) == ""
  {}

  lemma SpaceIsPadding(s: string)
    ensures SplitBody(" " + s, "", false, false) == SplitBody(s, " ", false, false)
  {
    assert (" " + s)[1..] == s && "" + [' '] == " ";
  }

  /** The first part gives the first option of what is read, unless it is blank or has no key. */
  lemma FirstRead(cur: string, more: seq<string>, options: seq<RuleOption>, short: bool)
    requires options != [] && ReadOptions(PushPart(cur) + more) == options
    requires !short ==> Trim(cur) != "" && ReadOption(Trim(cur)).key != ""
    requires short ==> more == []
    ensures Trim(cur) != "" && ReadOption(Trim(cur)) == options[0]
    ensures ReadOptions(more) == options[1..]
  {
    hide Trim, ReadOption;
    var parts := PushPart(cur) + more;
    assert [] + more == more;
    if Trim(cur) != "" { assert parts[0] == Trim(cur) && parts[1..] == more; }
  }

  lemma KeptHere(o: RuleOption, rest: string, n: nat)
    requires var text := OptionText(o) + ("; " + rest);
             n <= |text| && n > |OptionText(o)| == FirstSeparator(text[..n], false, false)
    ensures Kept(o)
  {
    hide OptionText, FirstSeparator, Whole;
    CutSeparator(OptionText(o) + ("; " + rest), n, false, false);
    WholeIff(OptionText(o), "; " + rest, false, false);
  }

  function OptionTexts(options: seq<RuleOption>): (parts: seq<string>)
    ensures |parts| == |options| && forall i :: 0 <= i < |options| ==> parts[i] == OptionText(options[i])
  {
    seq(|options|, i requires 0 <= i < |options| => OptionText(options[i]))
  }

  /** A printed list of kept options is cut into exactly these. */
  lemma {:induction false} OptionsAreSplit(options: seq<RuleOption>, pad: string)
    requires forall o :: o in options ==> ReadKey(o.key) && Kept(o)
    requires pad == "" || pad == " "
    ensures SplitBody(OptionsText(options), pad, false, false) == OptionTexts(options)
    decreases |options|
  {
    hide SplitBody, OptionText, PushPart, OptionsText, ReadKey, FirstSeparator, Whole, Trim;
    if options == [] {
      NoOptionsText();
      EndOfBody(pad);
    } else {
      var o, rest := options[0], OptionsText(options[1..]);
      var t, text := OptionText(o), OptionsText(options);
      assert o in options;
      OptionsTextCons(options);
      WholeIff(t, "; " + rest, false, false);
      SplitAtSeparator(text, pad, false, false);
      assert text[..|t|] == t && text[|t| + 1..] == " " + rest;
      SpaceIsPadding(rest);
      PaddedPart(o, pad);
      OptionsAreSplit(options[1..], " ");
      assert OptionTexts(options) == [t] + OptionTexts(options[1..]);
    }
  }

  lemma PaddedPart(o: RuleOption, pad: string)
    requires ReadKey(o.key) && (pad == "" || pad == " ")
    ensures PushPart(pad + OptionText(o)) == [OptionText(o)]
  {
    hide OptionText, Trim, ReadKey;
    OptionTight(o);
    assert OptionText(o) + "" == OptionText(o);
    TrimPadded(pad, OptionText(o), "");
    NothingRight();
  }

  lemma EndOfBody(pad: string)
    requires pad == "" || pad == " "
    ensures SplitBody("", pad, false, false) == []
  {
    assert TrimLeft("") == "" && TrimRight("") == "";
    if pad == " " { assert pad[1..] == ""; }
  }

  lemma {:induction false} OptionsReadBack(options: seq<RuleOption>)
    requires forall o :: o in options ==> ReadKey(o.key)
    ensures ReadOptions(OptionTexts(options)) == options
    decreases |options|
  {
    hide ReadOption, OptionText, ToLower, FirstSeparator;
    if options != [] {
      assert options[0] in options;
      OptionReadsBack(options[0]);
      OptionsReadBack(options[1..]);
      assert OptionTexts(options)[1..] == OptionTexts(options[1..]);
      assert options == [options[0]] + options[1..];
    }
  }

  /**
   * Of all pieces of a printed option list that a closing parenthesis can end,
   * exactly the whole list reads back, and exactly when every option is kept.
   */
  lemma PieceReadsIff(options: seq<RuleOption>, n: nat)
    requires forall o :: o in options ==> ReadKey(o.key)
    requires PieceEnds(OptionsText(options), n)
    ensures ReadOptions(SplitBody(OptionsText(options)[..n], "", false, false)) == options <==>
            n == |OptionsText(options)| && forall o :: o in options ==> Kept(o)
  {
    hide SplitBody, ReadOptions, OptionsText, ReadKey, Whole, OptionText;
    var text := OptionsText(options);
    if ReadOptions(SplitBody(text[..n], "", false, false)) == options { PieceReads(options, n, ""); }
    if n == |text| && forall o :: o in options ==> Kept(o) {
      assert text[..n] == text;
      OptionsAreSplit(options, "");
      OptionsReadBack(options);
    }
  }
}
