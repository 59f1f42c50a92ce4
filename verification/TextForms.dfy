/** What the text helpers do, seen from the characters: order, quotes, comments, character classes. */
module TextForms {
  import opened Text

  /** The two texts agree before `k`, and there the first one ends or has the smaller character. */
  predicate SmallerAt(a: string, b: string, k: nat) {
    k <= |a| && k < |b| && a[..k] == b[..k] && (k == |a| || a[k] < b[k])
  }

  /** The order is lexicographic: decided at the first place where the texts differ. */
  lemma {:induction false} LessIsLexicographic(a: string, b: string)
    ensures Less(a, b) <==> exists k: nat :: SmallerAt(a, b, k)
  {
    if b != "" && a != "" && a[0] == b[0] {
      LessIsLexicographic(a[1..], b[1..]);
      if k: nat :| SmallerAt(a[1..], b[1..], k) {
        assert a[..k + 1] == [a[0]] + a[1..][..k] && b[..k + 1] == [b[0]] + b[1..][..k];
        assert SmallerAt(a, b, k + 1);
      }
      if k: nat :| SmallerAt(a, b, k) {
        assert k > 0;
        assert a[1..][..k - 1] == a[..k][1..] && b[1..][..k - 1] == b[..k][1..];
        assert SmallerAt(a[1..], b[1..], k - 1);
      }
    } else {
      if b != "" && (a == "" || a[0] < b[0]) { assert SmallerAt(a, b, 0); }
      if k: nat :| SmallerAt(a, b, k) { SameFront(a, b, k); }
    }
  }

  lemma SameFront(a: string, b: string, k: nat)
    requires SmallerAt(a, b, k)
    ensures k > 0 ==> a != "" && a[0] == b[0]
  {
    if k > 0 { assert a[..k][0] == a[0] && b[..k][0] == b[0]; }
  }

  /** Spaces around are trimmed, then one pair of equal quotes around what is left goes away. */
  lemma QuotesAreStripped(front: string, text: string, back: string)
    requires forall i :: 0 <= i < |front| ==> IsSpace(front[i])
    requires forall i :: 0 <= i < |back| ==> IsSpace(back[i])
    ensures StripQuotes(front + ("\"" + text + "\"") + back) == text
    ensures StripQuotes(front + ("'" + text + "'") + back) == text
    ensures text != "" && Tight(text) && text[0] != '"' && text[0] != '\'' ==> StripQuotes(front + text + back) == text
  {
    hide Trim;
    var double, single := "\"" + text + "\"", "'" + text + "'";
    TrimAround(front, double, back);
    TrimAround(front, single, back);
    assert double[1..|double| - 1] == text && single[1..|single| - 1] == text;
    if text != "" && Tight(text) { TrimAround(front, text, back); }
  }

  /** No quote, no hash sign, no slash. */
  predicate Ordinary(s: string) { forall i :: 0 <= i < |s| ==> s[i] !in "\"'#/" }

  /** A hash sign or two slashes outside quotes start a comment, and everything from there on is cut. */
  lemma CommentIsCut(front: string, comment: string)
    requires Ordinary(front)
    ensures RemoveComment(front + "#" + comment) == front
    ensures RemoveComment(front + "//" + comment) == front
    ensures RemoveComment(front) == front
  {
    hide CommentStart;
    CutAt(front, "#", comment);
    CutAt(front, "//", comment);
    OutsideSegment(front, 0, |front|);
    EndOfLine(front);
    assert front[..|front|] == front;
  }

  lemma CutAt(front: string, mark: string, comment: string)
    requires Ordinary(front) && (mark == "#" || mark == "//")
    ensures RemoveComment(front + mark + comment) == front
  {
    hide CommentStart;
    var line := front + mark + comment;
    assert forall i :: 0 <= i < |front| ==> line[i] == front[i];
    assert forall i :: 0 <= i < |mark| ==> line[|front| + i] == mark[i];
    OutsideSegment(line, 0, |front|);
    StartsThere(line, |front|);
    assert line[..|front|] == front;
  }

  lemma StartsThere(line: string, i: nat)
    requires i < |line| && CommentAt(line, i) && line[i] != '"' && line[i] != '\''
    ensures CommentStart(line, i, None) == i
  {}

  lemma {:induction false} Inside(line: string, i: nat, j: nat, q: char)
    requires i <= j <= |line| && (q == '"' || q == '\'')
    requires forall k :: i <= k < j ==> line[k] != q
    ensures CommentStart(line, i, Some(q)) == CommentStart(line, j, Some(q))
    decreases j - i
  {
    if i < j { Inside(line, i + 1, j, q); }
  }

  /** Inside quotes of either kind nothing is a comment; behind them it is again. */
  lemma QuotedIsKept(front: string, q: char, quoted: string, back: string, comment: string)
    requires Ordinary(front) && Ordinary(back) && (q == '"' || q == '\'') && q !in quoted
    requires (front != "" ==> front[|front| - 1] != '\\') && (quoted != "" ==> quoted[|quoted| - 1] != '\\')
    ensures RemoveComment(front + [q] + quoted + [q] + back + "#" + comment) == front + [q] + quoted + [q] + back
  {
    hide CommentStart;
    var kept := front + [q] + quoted + [q] + back;
    var line := kept + "#" + comment;
    var a := |front|;
    var b := a + 1 + |quoted|;
    assert forall i :: 0 <= i < a ==> line[i] == front[i];
    assert forall i :: 0 <= i < |quoted| ==> line[a + 1 + i] == quoted[i];
    assert forall i :: 0 <= i < |back| ==> line[b + 1 + i] == back[i];
    assert line[a] == q && line[b] == q && line[|kept|] == '#';
    OutsideSegment(line, 0, a);
    QuoteTurns(line, a, q);
    Inside(line, a + 1, b, q);
    QuoteTurns(line, b, q);
    OutsideSegment(line, b + 1, |kept|);
    StartsThere(line, |kept|);
    assert line[..|kept|] == kept;
  }

  lemma QuoteTurns(line: string, i: nat, q: char)
    requires i < |line| && line[i] == q && (q == '"' || q == '\'') && (i > 0 ==> line[i - 1] != '\\')
    ensures CommentStart(line, i, None) == CommentStart(line, i + 1, Some(q))
    ensures CommentStart(line, i, Some(q)) == CommentStart(line, i + 1, None)
  {}

  /** The character classes by their ASCII codes. */
  lemma CharacterClasses(c: char)
    ensures IsSpace(c) <==> c as int in {9, 10, 11, 12, 13, 32}
    ensures IsDigit(c) <==> 48 <= c as int <= 57
    ensures IsHexDigit(c) <==> c in "0123456789abcdefABCDEF"
    ensures LowerChar(c) as int == if 65 <= c as int <= 90 then c as int + 32 else c as int
  {
    var hex := "0123456789abcdefABCDEF";
    assert forall i :: 0 <= i < 22 ==> IsHexDigit(hex[i]);
    if IsHexDigit(c) {
      var k := if c <= '9' then c as int - 48 else if c <= 'F' then c as int - 65 + 16 else c as int - 97 + 10;
      assert hex[k] == c;
    }
  }

  /** Numbers are written most significant digit first. */
  lemma DecimalDigits(n: nat, d: nat)
    requires 0 < n && d < 10
    ensures Decimal(10 * n + d) == Decimal(n) + [DigitChar(d)]
    ensures Decimal(d) == [DigitChar(d)]
  {}
}
