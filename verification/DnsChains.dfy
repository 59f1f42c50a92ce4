/** Compressed names as whole names: the labels met along a chain of pointers, in order (section 4.1.4 of RFC 1035). */
module DnsChains {
  import opened Text
  import opened Ipv4
  import opened DnsWire

  /** All labels from an offset on, following `n` pointers. */
  function ChainLabels(bytes: seq<U8>, off: nat, n: nat): (labels: seq<seq<U8>>)
    ensures WireLabels(labels)
    decreases n
  {
    var run := ReadRun(bytes, off);
    run.labels + (if n > 0 && run.end.Pointer? then ChainLabels(bytes, run.end.target, n - 1) else [])
  }

  function Rendered(labels: seq<seq<U8>>): (parts: seq<string>)
    ensures |parts| == |labels| && forall i :: 0 <= i < |parts| ==> parts[i] == Render(labels[i])
  {
    seq(|labels|, i requires 0 <= i < |labels| => Render(labels[i]))
  }

  lemma JoinAppended(xs: seq<string>, ys: seq<string>)
    ensures Join(xs + ys, '.') == if xs == [] then Join(ys, '.') else if ys == [] then Join(xs, '.') else Join(xs, '.') + "." + Join(ys, '.')
  {
    hide Join;
    if xs == [] {
      assert xs + ys == ys;
    } else if ys == [] {
      assert xs + ys == xs;
    } else {
      JoinConcat(xs, ys, '.');
    }
  }

  /** Putting the pointed-to name behind the own labels is joining both label lists. */
  lemma SuffixIsConcat(own: seq<seq<U8>>, rest: seq<seq<U8>>)
    requires WireLabels(own) && WireLabels(rest)
    ensures WithSuffix(Dotted(own), Dotted(rest)) == Join(Rendered(own + rest), '.') == Dotted(own + rest)
  {
    hide Join, Dotted;
    DottedIsJoin(own);
    DottedIsJoin(rest);
    DottedIsJoin(own + rest);
    assert Rendered(own) == seq(|own|, i requires 0 <= i < |own| => Render(own[i]));
    assert Rendered(rest) == seq(|rest|, i requires 0 <= i < |rest| => Render(rest[i]));
    assert Rendered(own + rest) == seq(|own + rest|, i requires 0 <= i < |own + rest| => Render((own + rest)[i]));
    assert Rendered(own + rest) == Rendered(own) + Rendered(rest);
    JoinAppended(Rendered(own), Rendered(rest));
    if own == [] { NothingDotted(); }
    if rest == [] { NothingDotted(); }
  }

  lemma NothingDotted()
    ensures Dotted([]) == ""
  {}

  /**
   * The text of a name is the dotted join of all labels along its pointers, own
   * labels first: for every name that ends after `n` pointers, at every depth that allows them.
   */
  lemma {:induction false} NameIsItsChain(bytes: seq<U8>, off: nat, depth: nat, n: nat)
    requires EndsAfter(bytes, off, n) && depth + n <= MAX_DEPTH
    ensures DecodeName(bytes, off, depth) == Some(Join(Rendered(ChainLabels(bytes, off, n)), '.'))
    decreases n
  {
    hide ReadRun, Dotted, Join;
    var run := ReadRun(bytes, off);
    var own := run.labels;
    if n == 0 {
      SuffixIsConcat(own, []);
      assert own + [] == own;
    } else {
      NameIsItsChain(bytes, run.end.target, depth + 1, n - 1);
      var rest := ChainLabels(bytes, run.end.target, n - 1);
      SuffixIsConcat(own, rest);
      SuffixIsConcat([], rest);
      assert [] + rest == rest;
    }
  }

  /** Every accepted name is such a join. */
  lemma AcceptedNameIsJoin(bytes: seq<U8>, off: nat, depth: nat) returns (n: nat)
    requires DecodeName(bytes, off, depth).Some?
    ensures n <= MAX_DEPTH - depth && EndsAfter(bytes, off, n)
    ensures DecodeName(bytes, off, depth).value == Join(Rendered(ChainLabels(bytes, off, n)), '.')
  {
    hide ReadRun, Dotted, Join, EndsAfter, DecodeName, ChainLabels, Rendered;
    NameAcceptedIff(bytes, off, depth);
    n :| n <= MAX_DEPTH - depth && EndsAfter(bytes, off, n);
    NameIsItsChain(bytes, off, depth, n);
  }

  /**
   * Written labels followed by a pointer to a name read as these labels and then
   * that name's: the same text as the whole list of labels written out.
   */
  lemma CompressionIsInvisible(
    front: seq<U8>, labels: seq<seq<U8>>, target: nat, back: seq<U8>, rest: seq<seq<U8>>, depth: nat, plain: seq<U8>, plainBack: seq<U8>)
    requires WireLabels(labels) && WireLabels(rest) && target < 0x4000 && depth <= MAX_DEPTH
    requires |Dotted(labels)| <= 255 && |Dotted(labels + rest)| <= 255
    requires DecodeName(front + EncodeLabels(labels) + EncodeEnd(Pointer(target)) + back, target, depth + 1) == Some(Join(Rendered(rest), '.'))
    ensures DecodeName(front + EncodeLabels(labels) + EncodeEnd(Pointer(target)) + back, |front|, depth) == Some(Join(Rendered(labels + rest), '.'))
    ensures DecodeName(plain + EncodeLabels(labels + rest) + EncodeEnd(Root) + plainBack, |plain|, depth) == Some(Join(Rendered(labels + rest), '.'))
  {
    hide ReadRun, EncodeLabels, EncodeEnd, Dotted, DecodeName, Join, Rendered, WithSuffix;
    EncodedNameDecodes(front, labels, Pointer(target), back, depth);
    EncodedNameDecodes(plain, labels + rest, Root, plainBack, depth);
    SuffixIsConcat(labels, rest);
    SuffixIsConcat([], rest);
    assert [] + rest == rest;
    NothingDotted();
    assert WithSuffix("", Dotted(rest)) == Dotted(rest) by { NoOwnPart(Dotted(rest)); }
  }

  lemma NoOwnPart(suffix: string)
    ensures WithSuffix("", suffix) == suffix
  {
    assert "" + suffix == suffix;
  }

  /** A name of a question or record is accepted exactly when it ends after at most twelve pointers, every part on the way within 255 characters. */
  lemma TwelvePointers(bytes: seq<U8>, off: nat)
    ensures DecodeName(bytes, off, 0).Some? <==> EndsWithin(bytes, off, 12)
  {
    hide EndsWithin, DecodeName;
    NameAcceptedIff(bytes, off, 0);
  }

  // ---- an answer that points at its question ----

  const EXAMPLE: seq<U8> := [7, 101, 120, 97, 109, 112, 108, 101, 3, 99, 111, 109, 0]

  /** The bytes 3 w w w C0 0C behind a header and the name example.com read as www.example.com. */
  lemma CompressedExample(header: seq<U8>, back: seq<U8>)
    requires |header| == 12
    ensures DecodeName(header + EXAMPLE + [3, 87, 87, 87, 0xC0, 0x0C] + back, 25, 0) == Some("www.example.com")
  {
    hide ReadRun, Dotted, DecodeName, Join, EncodeLabels, EncodeEnd;
    var www: seq<seq<U8>> := [[87, 87, 87]];
    var example: seq<seq<U8>> := [[101, 120, 97, 109, 112, 108, 101], [99, 111, 109]];
    ExampleBytes();
    var bytes := header + EXAMPLE + [3, 87, 87, 87, 0xC0, 0x0C] + back;
    var tail := [3, 87, 87, 87, 0xC0, 0x0C] + back;
    assert bytes == header + EncodeLabels(example) + EncodeEnd(Root) + tail;
    assert bytes == (header + EXAMPLE) + EncodeLabels(www) + EncodeEnd(Pointer(12)) + back;
    ExampleText();
    EncodedNameDecodes(header, example, Root, tail, 1);
    EncodedNameDecodes(header + EXAMPLE, www, Pointer(12), back, 0);
    assert |header + EXAMPLE| == 25;
  }

  lemma ExampleBytes()
    ensures EncodeLabels([[101, 120, 97, 109, 112, 108, 101], [99, 111, 109]]) + EncodeEnd(Root) == EXAMPLE
    ensures EncodeLabels([[87, 87, 87]]) + EncodeEnd(Pointer(12)) == [3, 87, 87, 87, 0xC0, 0x0C]
  {
    var com: seq<seq<U8>> := [[99, 111, 109]];
    var example: seq<seq<U8>> := [[101, 120, 97, 109, 112, 108, 101], [99, 111, 109]];
    var www: seq<seq<U8>> := [[87, 87, 87]];
    assert example[1..] == com && com[1..] == [] && www[1..] == [];
    assert EncodeLabels(com) == [3, 99, 111, 109];
  }

  lemma ExampleText()
    ensures Dotted([[87, 87, 87]]) == "www"
    ensures Dotted([[101, 120, 97, 109, 112, 108, 101], [99, 111, 109]]) == "example.com"
    ensures WithSuffix("www", "example.com") == "www.example.com"
  {
    hide Dotted, Render, WithSuffix;
    ExampleLetters();
    OneLabel([87, 87, 87]);
    OneLabel([101, 120, 97, 109, 112, 108, 101]);
    DottedSnoc([[101, 120, 97, 109, 112, 108, 101]], [99, 111, 109]);
    assert [[101, 120, 97, 109, 112, 108, 101]] + [[99, 111, 109]] == [[101, 120, 97, 109, 112, 108, 101], [99, 111, 109]];
    ExampleSuffix();
  }

  lemma OneLabel(part: seq<U8>)
    ensures Dotted([part]) == Render(part)
  {
    hide Dotted, Render;
    NothingDotted();
    DottedSnoc([], part);
    assert [] + [part] == [part] && "" + Render(part) == Render(part);
  }

  lemma ExampleSuffix()
    ensures WithSuffix("www", "example.com") == "www.example.com"
  {}

  lemma ExampleLetters()
    ensures Render([87, 87, 87]) == "www" && Render([99, 111, 109]) == "com"
    ensures Render([101, 120, 97, 109, 112, 108, 101]) == "example"
  {}
}
