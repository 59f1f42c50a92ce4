/** String helpers of the toolkit, over the ASCII meaning of the C character classes. */
module Text {
  datatype Option<+T> = None | Some(value: T)

  predicate IsSpace(c: char) {
    c == ' ' || c == '\t' || c == '\n' || c == '\r' || c == '\U{0B}' || c == '\U{0C}'
  }

  predicate IsDigit(c: char) { '0' <= c <= '9' }

  predicate IsHexDigit(c: char) { IsDigit(c) || 'a' <= c <= 'f' || 'A' <= c <= 'F' }

  predicate IsAlnum(c: char) { IsDigit(c) || 'a' <= c <= 'z' || 'A' <= c <= 'Z' }

  function LowerChar(c: char): (r: char)
    ensures !('A' <= r <= 'Z')
    ensures IsSpace(r) == IsSpace(c) && (r == '.' <==> c == '.') && (r == '*' <==> c == '*')
  {
    if 'A' <= c <= 'Z' then (c as int + 32) as char else c
  }

  function ToLower(s: string): (r: string)
    ensures |r| == |s|
    ensures forall i :: 0 <= i < |s| ==> r[i] == LowerChar(s[i])
  {
    seq(|s|, i requires 0 <= i < |s| => LowerChar(s[i]))
  }

  lemma LowerIdempotent(s: string)
    ensures ToLower(ToLower(s)) == ToLower(s)
  {
    assert forall c: char :: LowerChar(LowerChar(c)) == LowerChar(c);
  }

  function TrimLeft(s: string): string {
    if s != "" && IsSpace(s[0]) then TrimLeft(s[1..]) else s
  }

  function TrimRight(s: string): string {
    if s != "" && IsSpace(s[|s| - 1]) then TrimRight(s[..|s| - 1]) else s
  }

  function Trim(s: string): string { TrimRight(TrimLeft(s)) }

  /** A string that starts and ends with something else than a space. */
  predicate Tight(s: string) {
    s != "" ==> !IsSpace(s[0]) && !IsSpace(s[|s| - 1])
  }

  predicate NoSpaces(s: string) { forall i :: 0 <= i < |s| ==> !IsSpace(s[i]) }

  lemma TrimTight(s: string)
    requires Tight(s)
    ensures Trim(s) == s
  {}

  lemma {:induction false} TrimLeftDecomposes(s: string) returns (k: nat)
    ensures k <= |s| && TrimLeft(s) == s[k..]
    ensures forall i :: 0 <= i < k ==> IsSpace(s[i])
    ensures k < |s| ==> !IsSpace(s[k])
  {
    if s != "" && IsSpace(s[0]) {
      var j := TrimLeftDecomposes(s[1..]);
      k := j + 1;
      assert s[1..][j..] == s[k..];
      forall i | 0 <= i < k ensures IsSpace(s[i]) {
        if i > 0 { assert s[i] == s[1..][i - 1]; }
      }
      if k < |s| { assert s[k] == s[1..][j]; }
    } else {
      k := 0;
    }
  }

  lemma {:induction false} TrimRightDecomposes(s: string) returns (k: nat)
    ensures k <= |s| && TrimRight(s) == s[..k]
    ensures forall i :: k <= i < |s| ==> IsSpace(s[i])
    ensures k > 0 ==> !IsSpace(s[k - 1])
  {
    if s != "" && IsSpace(s[|s| - 1]) {
      k := TrimRightDecomposes(s[..|s| - 1]);
      assert s[..|s| - 1][..k] == s[..k];
    } else {
      k := |s|;
    }
  }

  /** Trimming removes exactly the spaces around the text. */
  lemma TrimDecomposes(s: string) returns (a: nat, b: nat)
    ensures a <= b <= |s| && Trim(s) == s[a..b] && Tight(Trim(s))
    ensures forall i :: 0 <= i < a ==> IsSpace(s[i])
    ensures forall i :: b <= i < |s| ==> IsSpace(s[i])
  {
    hide TrimLeft, TrimRight;
    a := TrimLeftDecomposes(s);
    var t := TrimLeft(s);
    var k := TrimRightDecomposes(t);
    b := a + k;
    assert t == s[a..];
    assert t[..k] == s[a..b];
    forall i | b <= i < |s| ensures IsSpace(s[i]) { assert s[i] == t[i - a]; }
    if a < b {
      assert s[a..b][0] == s[a] && s[a..b][b - a - 1] == s[b - 1] == t[k - 1];
    }
  }

  lemma {:induction false} TrimLeftPadded(pad: string, text: string)
    requires forall i :: 0 <= i < |pad| ==> IsSpace(pad[i])
    requires text != "" ==> !IsSpace(text[0])
    ensures TrimLeft(pad + text) == text
  {
    if pad == "" {
      assert pad + text == text;
    } else {
      assert (pad + text)[1..] == pad[1..] + text;
      TrimLeftPadded(pad[1..], text);
    }
  }

  lemma {:induction false} TrimRightPadded(text: string, pad: string)
    requires forall i :: 0 <= i < |pad| ==> IsSpace(pad[i])
    requires text != "" ==> !IsSpace(text[|text| - 1])
    ensures TrimRight(text + pad) == text
    decreases |pad|
  {
    if pad == "" {
      assert text + pad == text;
    } else {
      assert (text + pad)[..|text + pad| - 1] == text + pad[..|pad| - 1];
      TrimRightPadded(text, pad[..|pad| - 1]);
    }
  }

  lemma TrimAround(front: string, text: string, back: string)
    requires forall i :: 0 <= i < |front| ==> IsSpace(front[i])
    requires forall i :: 0 <= i < |back| ==> IsSpace(back[i])
    requires text != "" && Tight(text)
    ensures Trim(front + text + back) == text
  {
    assert front + text + back == front + (text + back);
    assert (text + back)[0] == text[0];
    TrimLeftPadded(front, text + back);
    TrimRightPadded(text, back);
  }

  predicate StartsWith(s: string, p: string) { |p| <= |s| && s[..|p|] == p }

  predicate EndsWith(s: string, p: string) { |p| <= |s| && s[|s| - |p|..] == p }

  /** First position of `c` at or after the start, or the length when there is none. */
  function IndexOf(s: string, c: char): (i: nat)
    ensures i <= |s|
    ensures i < |s| ==> s[i] == c
    ensures forall j :: 0 <= j < i ==> s[j] != c
  {
    if s == "" || s[0] == c then 0 else
      var rest := IndexOf(s[1..], c);
      assert forall j :: 1 <= j < rest + 1 ==> s[j] == s[1..][j - 1];
      rest + 1
  }

  /** Last position of `c`, or -1 when there is none. */
  function LastIndexOf(s: string, c: char): (i: int)
    ensures -1 <= i < |s| && (i >= 0 ==> s[i] == c) && forall j :: i < j < |s| ==> s[j] != c
  {
    if s == "" then -1 else if s[|s| - 1] == c then |s| - 1 else LastIndexOf(s[..|s| - 1], c)
  }

  /** First position where `p` occurs, or the length when it does not. */
  function FindText(s: string, p: string): (i: nat)
    ensures i <= |s|
    ensures i < |s| ==> StartsWith(s[i..], p)
    ensures forall j :: 0 <= j < i ==> !StartsWith(s[j..], p)
  {
    if s == "" || StartsWith(s, p) then
      assert s[0..] == s;
      0
    else
      var rest := FindText(s[1..], p);
      assert forall j :: 0 <= j < |s| ==> s[1..][j..] == s[j + 1..];
      assert forall j :: 0 <= j < rest + 1 ==> !StartsWith(s[j..], p) by {
        forall j | 0 <= j < rest + 1 ensures !StartsWith(s[j..], p) {
          if j > 0 { assert s[j..] == s[1..][j - 1..]; } else { assert s[0..] == s; }
        }
      }
      rest + 1
  }

  function Join(parts: seq<string>, d: char): string {
    if parts == [] then "" else
    if |parts| == 1 then parts[0] else parts[0] + [d] + Join(parts[1..], d)
  }

  lemma {:induction false} JoinSnoc(parts: seq<string>, last: string, d: char)
    ensures Join(parts + [last], d) == if parts == [] then last else Join(parts, d) + [d] + last
  {
    if |parts| > 0 {
      assert (parts + [last])[1..] == parts[1..] + [last];
      JoinSnoc(parts[1..], last, d);
    }
  }

  /** Every field between delimiters, empty ones included. */
  function Fields(s: string, d: char): (r: seq<string>)
    ensures r != []
    ensures forall i :: 0 <= i < |r| ==> d !in r[i]
    ensures Join(r, d) == s
    decreases |s|
  {
    var i := IndexOf(s, d);
    if i == |s| then [s]
    else
      var r := [s[..i]] + Fields(s[i + 1..], d);
      assert r[1..] == Fields(s[i + 1..], d);
      assert s == s[..i] + [d] + s[i + 1..];
      r
  }

  function NonEmpty(parts: seq<string>): seq<string> {
    if parts == [] then [] else
    (if parts[0] == "" then [] else [parts[0]]) + NonEmpty(parts[1..])
  }

  /** `split`: no field at all for the empty text; empty fields dropped unless asked for. */
  function Split(s: string, d: char, keepEmpty: bool): seq<string> {
    if keepEmpty then (if s == "" then [] else Fields(s, d)) else NonEmpty(Fields(s, d))
  }

  lemma {:induction false} FieldsOfJoin(parts: seq<string>, d: char)
    requires parts != []
    requires forall i :: 0 <= i < |parts| ==> d !in parts[i]
    ensures Fields(Join(parts, d), d) == parts
  {
    var s := Join(parts, d);
    if |parts| == 1 {
      assert IndexOf(s, d) == |s|;
    } else {
      var i := IndexOf(s, d);
      assert s[|parts[0]|] == d;
      assert forall j :: 0 <= j < |parts[0]| ==> s[j] == parts[0][j];
      assert i == |parts[0]|;
      assert s[..i] == parts[0] && s[i + 1..] == Join(parts[1..], d);
      FieldsOfJoin(parts[1..], d);
    }
  }

  lemma FieldsConcat(a: string, b: string, d: char)
    ensures Fields(a + [d] + b, d) == Fields(a, d) + Fields(b, d)
  {
    hide Fields, Join;
    var parts := Fields(a, d) + Fields(b, d);
    JoinConcat(Fields(a, d), Fields(b, d), d);
    assert Join(parts, d) == a + [d] + b;
    FieldsOfJoin(parts, d);
  }

  lemma {:induction false} JoinConcat(xs: seq<string>, ys: seq<string>, d: char)
    requires xs != [] && ys != []
    ensures Join(xs + ys, d) == Join(xs, d) + [d] + Join(ys, d)
  {
    if |xs| == 1 {
      assert (xs + ys)[1..] == ys;
    } else {
      assert (xs + ys)[1..] == xs[1..] + ys;
      JoinConcat(xs[1..], ys, d);
    }
  }

  lemma FirstDelimiter(a: string, x: string, b: string, y: string, d: char)
    requires d !in a && d !in b && a + [d] + x == b + [d] + y
    ensures a == b && x == y
  {
    var s, t := a + [d] + x, b + [d] + y;
    assert s[|a|] == d && t[|b|] == d;
    assert forall i :: 0 <= i < |a| ==> s[i] == a[i] != d;
    assert forall i :: 0 <= i < |b| ==> t[i] == b[i] != d;
    assert |a| == |b|;
    assert a == s[..|a|] && b == t[..|b|] && x == s[|a| + 1..] && y == t[|b| + 1..];
  }

  lemma {:induction false} NonEmptyKeepsAll(parts: seq<string>)
    requires forall i :: 0 <= i < |parts| ==> parts[i] != ""
    ensures NonEmpty(parts) == parts
  {
    if parts != [] { NonEmptyKeepsAll(parts[1..]); }
  }

  /** Length of the first run of non-spaces. */
  function WordEnd(s: string): (k: nat)
    ensures k <= |s| && (k < |s| ==> IsSpace(s[k])) && forall i :: 0 <= i < k ==> !IsSpace(s[i])
    ensures s != "" && !IsSpace(s[0]) ==> k > 0
  {
    if s == "" || IsSpace(s[0]) then 0 else
      var k := WordEnd(s[1..]);
      assert forall i :: 1 <= i < k + 1 ==> s[i] == s[1..][i - 1];
      k + 1
  }

  lemma {:induction false} TrimLeftFacts(s: string)
    ensures |TrimLeft(s)| <= |s| && (TrimLeft(s) != "" ==> !IsSpace(TrimLeft(s)[0]))
  {
    if s != "" && IsSpace(s[0]) { TrimLeftFacts(s[1..]); }
  }

  /** `split_ws`: the maximal runs of non-spaces. */
  function Words(s: string): seq<string>
    decreases |s|
  {
    TrimLeftFacts(s);
    var t := TrimLeft(s);
    if t == "" then [] else
      var k := WordEnd(t);
      [t[..k]] + Words(t[k..])
  }

  lemma NoWords()
    ensures Words("") == []
  {}

  lemma WordFirst(word: string, rest: string)
    requires NoSpaces(word) && word != "" && (rest != "" ==> IsSpace(rest[0]))
    ensures Words(word + rest) == [word] + Words(rest)
  {
    var s := word + rest;
    assert TrimLeft(s) == s;
    var k := WordEnd(s);
    assert forall i :: 0 <= i < |word| ==> s[i] == word[i];
    assert rest != "" ==> s[|word|] == rest[0];
    assert k == |word|;
    assert s[..k] == word && s[k..] == rest;
  }

  function StripQuotes(text: string): string {
    var v := Trim(text);
    if |v| >= 2 && ((v[0] == '"' && v[|v| - 1] == '"') || (v[0] == '\'' && v[|v| - 1] == '\'')) then v[1..|v| - 1] else v
  }

  /** Quote state after character `i`: an unescaped quote opens, or closes its own kind. */
  function QuoteAfter(line: string, i: nat, quote: Option<char>): Option<char>
    requires i < |line|
  {
    var c := line[i];
    if (c == '"' || c == '\'') && (i == 0 || line[i - 1] != '\\') then
      if quote.None? then Some(c) else if quote.value == c then None else quote
    else quote
  }

  predicate CommentAt(line: string, i: nat)
    requires i < |line|
  {
    line[i] == '#' || (line[i] == '/' && i + 1 < |line| && line[i + 1] == '/')
  }

  /** Where the comment starts, scanning from `i` with the given quote open. */
  function CommentStart(line: string, i: nat, quote: Option<char>): (k: nat)
    requires i <= |line|
    ensures i <= k <= |line|
    decreases |line| - i
  {
    if i == |line| then i
    else
      var q := QuoteAfter(line, i, quote);
      if q.None? && CommentAt(line, i) then i else CommentStart(line, i + 1, q)
  }

  function RemoveComment(line: string): string { line[..CommentStart(line, 0, None)] }

  /** Without quotes and comment marks the scanner moves on. */
  lemma {:induction false} OutsideSegment(line: string, i: nat, j: nat)
    requires i <= j <= |line|
    requires forall k :: i <= k < j ==> line[k] != '"' && line[k] != '\'' && !CommentAt(line, k)
    ensures CommentStart(line, i, None) == CommentStart(line, j, None)
    decreases j - i
  {
    hide CommentAt;
    if i < j { OutsideSegment(line, i + 1, j); }
  }

  lemma EndOfLine(line: string)
    ensures CommentStart(line, |line|, None) == |line|
  {}

  method RemoveCommentLoop(line: string) returns (r: string)
    ensures r == RemoveComment(line)
  {
    var quote: Option<char> := None;
    for i := 0 to |line|
      invariant CommentStart(line, 0, None) == CommentStart(line, i, quote)
    {
      var c := line[i];
      if (c == '"' || c == '\'') && (i == 0 || line[i - 1] != '\\') {
        if quote.None? { quote := Some(c); } else if quote.value == c { quote := None; }
      }
      if quote.None? && c == '#' { return line[..i]; }
      if quote.None? && c == '/' && i + 1 < |line| && line[i + 1] == '/' { return line[..i]; }
    }
    return line;
  }

  predicate IsDecimal(s: string) { s != "" && forall i :: 0 <= i < |s| ==> IsDigit(s[i]) }

  function DigitChar(d: nat): (c: char)
    requires d < 10
    ensures IsDigit(c) && c as int - '0' as int == d
  {
    ('0' as int + d) as char
  }

  function DigitValue(c: char): (d: nat)
    requires IsDigit(c)
    ensures d < 10 && DigitChar(d) == c
  {
    c as int - '0' as int
  }

  /** Decimal rendering, as `std::to_string` and stream output give it. */
  function Decimal(n: nat): (s: string)
    ensures IsDecimal(s)
  {
    if n < 10 then [DigitChar(n)] else Decimal(n / 10) + [DigitChar(n % 10)]
  }

  /** Value of a string of digits, most significant first. */
  function DecimalValue(s: string): nat
    requires forall i :: 0 <= i < |s| ==> IsDigit(s[i])
  {
    if s == "" then 0 else 10 * DecimalValue(s[..|s| - 1]) + DigitValue(s[|s| - 1])
  }

  lemma {:induction false} DecimalRoundTrip(n: nat)
    ensures DecimalValue(Decimal(n)) == n
  {
    if n >= 10 {
      DecimalRoundTrip(n / 10);
      var s := Decimal(n);
      assert s[..|s| - 1] == Decimal(n / 10);
    }
  }

  lemma {:induction false} DecimalLength(n: nat, k: nat, bound: nat)
    requires (k == 1 && bound == 10) || (k == 2 && bound == 100) || (k == 3 && bound == 1000)
    requires n < bound
    ensures |Decimal(n)| <= k
  {
    if k > 1 && n >= 10 { DecimalLength(n / 10, k - 1, bound / 10); }
  }

  lemma {:induction false} DecimalPrefixSmaller(s: string, i: nat)
    requires forall j :: 0 <= j < |s| ==> IsDigit(s[j])
    requires i <= |s|
    ensures DecimalValue(s[..i]) <= DecimalValue(s)
    decreases |s| - i
  {
    if i == |s| {
      assert s[..i] == s;
    } else {
      DecimalPrefixSmaller(s, i + 1);
      assert s[..i + 1][..i] == s[..i];
    }
  }

  /**
   * The digit loops of the port, prefix and sid parsers: reject as soon as the
   * running value passes `max`. The running value never outgrows 10 * max + 9,
   * so no machine integer wider than that can wrap.
   */
  method ParseBounded(text: string, max: nat) returns (r: Option<nat>)
    ensures r == BoundedValue(text, max)
  {
    if text == "" { return None; }
    for i := 0 to |text|
      invariant forall j :: 0 <= j < i ==> IsDigit(text[j])
    {
      if !IsDigit(text[i]) { return None; }
    }
    var parsed := 0;
    for i := 0 to |text|
      invariant parsed == DecimalValue(text[..i]) && parsed <= max
    {
      parsed := parsed * 10 + DigitValue(text[i]);
      assert parsed <= 10 * max + 9;
      assert text[..i + 1][..i] == text[..i];
      if parsed > max {
        DecimalPrefixSmaller(text, i + 1);
        return None;
      }
    }
    assert text[..|text|] == text;
    return Some(parsed);
  }

  function BoundedValue(text: string, max: nat): Option<nat> {
    if IsDecimal(text) && DecimalValue(text) <= max then Some(DecimalValue(text)) else None
  }

  /** Lexicographic order of strings, shorter first. */
  predicate Less(a: string, b: string) {
    if b == "" then false
    else if a == "" then true
    else if a[0] != b[0] then a[0] < b[0]
    else Less(a[1..], b[1..])
  }

  lemma {:induction false} LessTotal(a: string, b: string)
    ensures a == b || Less(a, b) || Less(b, a)
    ensures !(Less(a, b) && (Less(b, a) || a == b))
  {
    if a != "" && b != "" && a[0] == b[0] {
      LessTotal(a[1..], b[1..]);
      assert a == [a[0]] + a[1..] && b == [b[0]] + b[1..];
    }
  }

  lemma {:induction false} LessTransitive(a: string, b: string, c: string)
    requires Less(a, b) && Less(b, c)
    ensures Less(a, c)
  {
    if a != "" && a[0] == b[0] == c[0] { LessTransitive(a[1..], b[1..], c[1..]); }
  }
}
