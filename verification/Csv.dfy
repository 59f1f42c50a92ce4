/** Splitting one line of comma-separated values, with quoting (section 2 of RFC 4180). */
module Csv {
  import opened Text

  /** The fields of the rest of a line; `cur` is the field being read. */
  function SplitFrom(rest: string, cur: string, quote: bool): seq<string>
    decreases |rest|
  {
    if rest == "" then [Trim(cur)]
    else
      var c, tail := rest[0], rest[1..];
      if c == '"' then
        if quote && tail != "" && tail[0] == '"' then SplitFrom(tail[1..], cur + "\"", quote)
        else SplitFrom(tail, cur, !quote)
      else if c == ',' && !quote then [Trim(cur)] + SplitFrom(tail, "", quote)
      else SplitFrom(tail, cur + [c], quote)
  }

  function SplitLine(line: string): seq<string> { SplitFrom(line, "", false) }

  method SplitLineLoop(line: string) returns (out: seq<string>)
    ensures out == SplitLine(line)
  {
    hide Trim;
    out := [];
    var cur := "";
    var quote := false;
    var i := 0;
    ghost var all := SplitFrom(line, "", false);
    assert line[0..] == line && [] + all == all;
    while i < |line|
      invariant 0 <= i <= |line|
      invariant all == out + SplitFrom(line[i..], cur, quote)
    {
      var c := line[i];
      assert line[i..][0] == c && line[i..][1..] == line[i + 1..];
      if c == '"' {
        if quote && i + 1 < |line| && line[i + 1] == '"' {
          assert line[i + 1..][0] == '"' && line[i + 1..][1..] == line[i + 2..];
          cur := cur + "\"";
          i := i + 1;
        } else {
          quote := !quote;
        }
      } else if c == ',' && !quote {
        Regroup(out, Trim(cur), SplitFrom(line[i + 1..], "", quote));
        out := out + [Trim(cur)];
        cur := "";
      } else {
        cur := cur + [c];
      }
      i := i + 1;
    }
    assert line[|line|..] == "";
    out := out + [Trim(cur)];
  }

  lemma Regroup<T>(a: seq<T>, x: T, c: seq<T>)
    ensures a + ([x] + c) == (a + [x]) + c
  {}

  /** Inner quotes doubled. */
  function Doubled(field: string): string {
    if field == "" then "" else (if field[0] == '"' then "\"\"" else [field[0]]) + Doubled(field[1..])
  }

  function Quoted(field: string): string { "\"" + Doubled(field) + "\"" }

  function QuotedAll(fields: seq<string>): (r: seq<string>)
    ensures |r| == |fields| && forall i :: 0 <= i < |r| ==> r[i] == Quoted(fields[i])
  {
    seq(|fields|, i requires 0 <= i < |fields| => Quoted(fields[i]))
  }

  function TrimmedAll(fields: seq<string>): (r: seq<string>)
    ensures |r| == |fields| && forall i :: 0 <= i < |r| ==> r[i] == Trim(fields[i])
  {
    seq(|fields|, i requires 0 <= i < |fields| => Trim(fields[i]))
  }

  lemma DoubledQuoteRead(rest: string, cur: string)
    ensures SplitFrom("\"\"" + rest, cur, true) == SplitFrom(rest, cur + "\"", true)
  {
    var s := "\"\"" + rest;
    assert s[0] == '"' && s[1..][0] == '"' && s[1..][1..] == rest;
  }

  lemma PlainRead(c: char, rest: string, cur: string)
    requires c != '"'
    ensures SplitFrom([c] + rest, cur, true) == SplitFrom(rest, cur + [c], true)
  {
    assert ([c] + rest)[1..] == rest;
  }

  lemma {:induction false} DoubledIsRead(field: string, rest: string, cur: string)
    ensures SplitFrom(Doubled(field) + rest, cur, true) == SplitFrom(rest, cur + field, true)
    decreases |field|
  {
    hide SplitFrom;
    if field == "" {
      assert Doubled(field) + rest == rest && cur + field == cur;
    } else {
      var tail := Doubled(field[1..]) + rest;
      DoubledIsRead(field[1..], rest, cur + [field[0]]);
      assert cur + [field[0]] + field[1..] == cur + field;
      if field[0] == '"' {
        assert Doubled(field) + rest == "\"\"" + tail;
        DoubledQuoteRead(tail, cur);
      } else {
        assert Doubled(field) + rest == [field[0]] + tail;
        PlainRead(field[0], tail, cur);
      }
    }
  }

  /** A quoted field followed by a comma or the end of the line. */
  lemma QuotedIsRead(field: string, rest: string)
    requires rest != "" ==> rest[0] == ','
    ensures SplitFrom(Quoted(field) + rest, "", false) == SplitFrom(rest, field, false)
  {
    var after := "\"" + rest;
    var s := Quoted(field) + rest;
    assert s == "\"" + (Doubled(field) + after);
    assert s[1..] == Doubled(field) + after;
    DoubledIsRead(field, after, "");
    assert "" + field == field;
    assert after[1..] == rest;
  }

  /** Un-quoting inverts quoting: commas and quotes inside a field survive, only spaces around it are trimmed. */
  lemma {:induction false} QuotedLineSplits(fields: seq<string>)
    requires fields != []
    ensures SplitLine(Join(QuotedAll(fields), ',')) == TrimmedAll(fields)
    decreases |fields|
  {
    hide SplitFrom, Quoted, Trim;
    var line := Join(QuotedAll(fields), ',');
    if |fields| == 1 {
      QuotedIsRead(fields[0], "");
      assert line == Quoted(fields[0]) + "";
      LastField(fields[0]);
    } else {
      var rest := Join(QuotedAll(fields[1..]), ',');
      assert QuotedAll(fields)[1..] == QuotedAll(fields[1..]);
      assert line == Quoted(fields[0]) + ("," + rest);
      QuotedIsRead(fields[0], "," + rest);
      CommaEndsField(rest, fields[0]);
      QuotedLineSplits(fields[1..]);
      assert TrimmedAll(fields) == [Trim(fields[0])] + TrimmedAll(fields[1..]);
    }
  }

  lemma LastField(cur: string)
    ensures SplitFrom("", cur, false) == [Trim(cur)]
  {}

  lemma CommaEndsField(rest: string, cur: string)
    ensures SplitFrom("," + rest, cur, false) == [Trim(cur)] + SplitFrom(rest, "", false)
  {
    hide Trim;
    assert ("," + rest)[1..] == rest;
  }

  // ---- quoted and plain fields together ----

  /** A field written in quotes, or as it is when it holds no quote and no comma. */
  datatype Written = InQuotes(field: string) | AsIs(field: string)

  predicate Plain(w: Written) { w.AsIs? ==> forall i :: 0 <= i < |w.field| ==> w.field[i] != '"' && w.field[i] != ',' }

  function WrittenText(w: Written): string { if w.InQuotes? then Quoted(w.field) else w.field }

  function WrittenTexts(ws: seq<Written>): (r: seq<string>)
    ensures |r| == |ws| && forall i :: 0 <= i < |r| ==> r[i] == WrittenText(ws[i])
  {
    seq(|ws|, i requires 0 <= i < |ws| => WrittenText(ws[i]))
  }

  lemma {:induction false} AsIsRead(field: string, rest: string, cur: string)
    requires forall i :: 0 <= i < |field| ==> field[i] != '"' && field[i] != ','
    ensures SplitFrom(field + rest, cur, false) == SplitFrom(rest, cur + field, false)
    decreases |field|
  {
    if field == "" {
      assert field + rest == rest && cur + field == cur;
    } else {
      assert (field + rest)[1..] == field[1..] + rest;
      assert cur + [field[0]] + field[1..] == cur + field;
      AsIsRead(field[1..], rest, cur + [field[0]]);
    }
  }

  lemma FieldIsRead(w: Written, rest: string)
    requires Plain(w) && (rest != "" ==> rest[0] == ',')
    ensures SplitFrom(WrittenText(w) + rest, "", false) == SplitFrom(rest, w.field, false)
  {
    hide SplitFrom, Quoted;
    if w.InQuotes? {
      QuotedIsRead(w.field, rest);
    } else {
      AsIsRead(w.field, rest, "");
      assert "" + w.field == w.field;
    }
  }

  /** Commas outside quotes separate the fields of a line, however each field is written; only spaces around a field go. */
  lemma {:induction false} WrittenLineSplits(ws: seq<Written>)
    requires ws != [] && forall w :: w in ws ==> Plain(w)
    ensures var out := SplitLine(Join(WrittenTexts(ws), ','));
            |out| == |ws| && forall i :: 0 <= i < |ws| ==> out[i] == Trim(ws[i].field)
    decreases |ws|
  {
    hide SplitFrom, WrittenText, Trim, Plain;
    var line := Join(WrittenTexts(ws), ',');
    if |ws| == 1 {
      FieldIsRead(ws[0], "");
      assert line == WrittenText(ws[0]) + "";
      LastField(ws[0].field);
    } else {
      var rest := Join(WrittenTexts(ws[1..]), ',');
      assert WrittenTexts(ws)[1..] == WrittenTexts(ws[1..]);
      assert line == WrittenText(ws[0]) + ("," + rest);
      FieldIsRead(ws[0], "," + rest);
      CommaEndsField(rest, ws[0].field);
      WrittenLineSplits(ws[1..]);
    }
  }
}
