/** DNS messages on the wire: compressed names (section 4.1.4 of RFC 1035), questions and records. */
module DnsWire {
  import opened Collections
  import opened Text
  import opened Ipv4
  import opened DomainNames

  const MAX_DEPTH := 12

  // ---- names ----

  datatype Terminator = Root | Pointer(target: nat) | Broken

  /** The labels found from an offset on, what ends them, and the offset after that. */
  datatype LabelRun = LabelRun(labels: seq<seq<U8>>, end: Terminator, next: nat)

  function PointerTarget(high: U8, low: U8): nat
    requires high >= 192
  {
    (high - 192) * 256 + low
  }

  /** Labels up to a zero byte or a pointer; the two top bits of a length byte tell which. */
  function ReadRun(bytes: seq<U8>, off: nat): (run: LabelRun)
    ensures !run.end.Broken? ==> off < run.next <= |bytes|
    ensures forall i :: 0 <= i < |run.labels| ==> 0 < |run.labels[i]| < 64
    decreases |bytes| - off
  {
    if off >= |bytes| then LabelRun([], Broken, off)
    else
      var len := bytes[off];
      if len == 0 then LabelRun([], Root, off + 1)
      else if len >= 192 then
        if off + 1 >= |bytes| then LabelRun([], Broken, off) else LabelRun([], Pointer(PointerTarget(len, bytes[off + 1])), off + 2)
      else if len >= 64 || off + 1 + len > |bytes| then LabelRun([], Broken, off)
      else
        var rest := ReadRun(bytes, off + 1 + len);
        LabelRun([bytes[off + 1..off + 1 + len]] + rest.labels, rest.end, rest.next)
  }

  /** Visible characters in lower case, anything else as a question mark. */
  function RenderByte(c: U8): (r: char)
    ensures !IsSpace(r)
  {
    if 33 <= c <= 126 then LowerChar(c as char) else '?'
  }

  function Render(text: seq<U8>): (s: string)
    ensures |s| == |text| && forall i :: 0 <= i < |s| ==> s[i] == RenderByte(text[i])
  {
    seq(|text|, i requires 0 <= i < |text| => RenderByte(text[i]))
  }

  function Dotted(labels: seq<seq<U8>>): string {
    if labels == [] then "" else
      var front := Dotted(labels[..|labels| - 1]);
      (if front == "" then "" else front + ".") + Render(labels[|labels| - 1])
  }

  function WithSuffix(own: string, suffix: string): string {
    if own != "" && suffix != "" then own + "." + suffix else own + suffix
  }

  /** The name at an offset: own labels, then the name that the pointer leads to. */
  function DecodeName(bytes: seq<U8>, off: nat, depth: nat): Option<string>
    decreases if depth <= MAX_DEPTH then MAX_DEPTH + 1 - depth else 0
  {
    if depth > MAX_DEPTH then None
    else
      var run := ReadRun(bytes, off);
      var own := Dotted(run.labels);
      if run.end.Broken? || |own| > 255 then None
      else if run.end.Root? then Some(own)
      else match DecodeName(bytes, run.end.target, depth + 1)
        case None => None
        case Some(suffix) => Some(WithSuffix(own, suffix))
  }

  /** Reading one more label after those already read. */
  ghost predicate ReadSoFar(bytes: seq<U8>, start: nat, done: seq<seq<U8>>, off: nat) {
    var whole, rest := ReadRun(bytes, start), ReadRun(bytes, off);
    whole.labels == done + rest.labels && whole.end == rest.end && whole.next == rest.next
  }

  /**
   * The reader: a loop over labels, a recursive call at a pointer. It ends on
   * every byte string, pointer loops included, reads only inside the message,
   * and leaves the offset just past the first terminator.
   */
  method ReadDnsName(bytes: seq<U8>, start: nat, depth: nat) returns (name: Option<string>, offset: nat)
    ensures name == DecodeName(bytes, start, depth)
    ensures name.Some? ==> offset == ReadRun(bytes, start).next && start < offset <= |bytes|
    decreases if depth <= MAX_DEPTH then MAX_DEPTH + 1 - depth else 0
  {
    hide ReadRun, DecodeName, Dotted, ReadSoFar;
    offset := start;
    if depth > MAX_DEPTH { TooDeep(bytes, start, depth); return None, offset; }
    var text := "";
    ghost var done: seq<seq<U8>> := [];
    NothingRead(bytes, start);
    while true
      invariant ReadSoFar(bytes, start, done, offset) && text == Dotted(done) && |text| <= 255
      invariant start <= offset
      decreases |bytes| - offset
    {
      FirstByte(bytes, offset);
      if offset >= |bytes| { RunStops(bytes, start, done, offset, depth); return None, offset; }
      var len := bytes[offset];
      if len == 0 {
        RunStops(bytes, start, done, offset, depth);
        return Some(text), offset + 1;
      }
      if len >= 192 {
        RunStops(bytes, start, done, offset, depth);
        if offset + 1 >= |bytes| { return None, offset; }
        var suffix, _ := ReadDnsName(bytes, PointerTarget(len, bytes[offset + 1]), depth + 1);
        if suffix.None? { return None, offset; }
        if text != "" && suffix.value != "" { text := text + "."; }
        return Some(text + suffix.value), offset + 2;
      }
      if len >= 64 || offset + 1 + len > |bytes| { RunStops(bytes, start, done, offset, depth); return None, offset; }
      var part := bytes[offset + 1..offset + 1 + len];
      OneMoreLabel(bytes, start, done, offset);
      DottedSnoc(done, part);
      if text != "" { text := text + "."; }
      var rendered := RenderLoop(bytes, offset + 1, len);
      text := text + rendered;
      done := done + [part];
      offset := offset + 1 + len;
      if |text| > 255 { TooLong(bytes, start, done, offset, depth); return None, offset; }
    }
  }

  /** The inner loop: one output character for each byte of the label. */
  method RenderLoop(bytes: seq<U8>, off: nat, len: nat) returns (out: string)
    requires off + len <= |bytes|
    ensures out == Render(bytes[off..off + len])
  {
    out := "";
    for i := 0 to len
      invariant out == Render(bytes[off..off + i])
    {
      assert bytes[off..off + i + 1] == bytes[off..off + i] + [bytes[off + i]];
      out := out + [RenderByte(bytes[off + i])];
    }
  }

  lemma TooDeep(bytes: seq<U8>, off: nat, depth: nat)
    requires depth > MAX_DEPTH
    ensures DecodeName(bytes, off, depth) == None
  {}

  lemma NothingRead(bytes: seq<U8>, start: nat)
    ensures ReadSoFar(bytes, start, [], start) && Dotted([]) == ""
  {}

  /** What the length byte at an offset says about the run that starts there. */
  lemma FirstByte(bytes: seq<U8>, off: nat)
    ensures var run := ReadRun(bytes, off);
            if off >= |bytes| then run == LabelRun([], Broken, off)
            else
              var len := bytes[off];
              && (len == 0 ==> run == LabelRun([], Root, off + 1))
              && (len >= 192 ==> run == if off + 1 >= |bytes| then LabelRun([], Broken, off)
                                        else LabelRun([], Pointer(PointerTarget(len, bytes[off + 1])), off + 2))
              && (64 <= len < 192 || (0 < len < 64 && off + 1 + len > |bytes|) ==> run == LabelRun([], Broken, off))
  {}

  /** When no label follows, the name is what has been read and what the terminator adds. */
  lemma RunStops(bytes: seq<U8>, start: nat, done: seq<seq<U8>>, off: nat, depth: nat)
    requires ReadSoFar(bytes, start, done, off) && ReadRun(bytes, off).labels == []
    requires depth <= MAX_DEPTH && |Dotted(done)| <= 255
    ensures ReadRun(bytes, start).next == ReadRun(bytes, off).next
    ensures DecodeName(bytes, start, depth) ==
            match ReadRun(bytes, off).end
            case Broken => None
            case Root => Some(Dotted(done))
            case Pointer(target) =>
              match DecodeName(bytes, target, depth + 1)
              case None => None
              case Some(suffix) => Some(WithSuffix(Dotted(done), suffix))
  {
    hide ReadRun, Dotted;
    assert done + [] == done;
  }

  lemma TooLong(bytes: seq<U8>, start: nat, done: seq<seq<U8>>, off: nat, depth: nat)
    requires ReadSoFar(bytes, start, done, off) && |Dotted(done)| > 255
    ensures DecodeName(bytes, start, depth) == None
  {
    hide ReadRun, Dotted;
    DottedGrows(done, ReadRun(bytes, off).labels);
  }

  lemma DottedSnoc(done: seq<seq<U8>>, part: seq<U8>)
    ensures Dotted(done + [part]) == (if Dotted(done) == "" then "" else Dotted(done) + ".") + Render(part)
  {
    assert (done + [part])[..|done|] == done;
  }

  lemma OneMoreLabel(bytes: seq<U8>, start: nat, done: seq<seq<U8>>, off: nat)
    requires ReadSoFar(bytes, start, done, off)
    requires off < |bytes| && 0 < bytes[off] < 64 && off + 1 + bytes[off] <= |bytes|
    ensures ReadSoFar(bytes, start, done + [bytes[off + 1..off + 1 + bytes[off]]], off + 1 + bytes[off])
  {
    var part := bytes[off + 1..off + 1 + bytes[off]];
    var rest := ReadRun(bytes, off + 1 + bytes[off]);
    assert done + ([part] + rest.labels) == (done + [part]) + rest.labels;
  }

  lemma {:induction false} DottedGrows(a: seq<seq<U8>>, b: seq<seq<U8>>)
    ensures |Dotted(a + b)| >= |Dotted(a)|
    decreases |b|
  {
    if b == [] {
      assert a + b == a;
    } else {
      DottedGrows(a, b[..|b| - 1]);
      assert (a + b)[..|a + b| - 1] == a + b[..|b| - 1];
    }
  }

  // ---- what a decoded name looks like ----

  lemma {:induction false} DottedHasNoSpaces(labels: seq<seq<U8>>)
    ensures NoSpaces(Dotted(labels))
  {
    if labels != [] { DottedHasNoSpaces(labels[..|labels| - 1]); }
  }

  /** A name read at depth `d` has at most 256 * (13 - d) - 1 characters, none of them a space. */
  lemma {:induction false} DecodedNameShape(bytes: seq<U8>, off: nat, depth: nat)
    ensures DecodeName(bytes, off, depth).Some? ==>
              depth <= MAX_DEPTH && |DecodeName(bytes, off, depth).value| <= 256 * (MAX_DEPTH + 1 - depth) - 1
              && NoSpaces(DecodeName(bytes, off, depth).value)
    decreases if depth <= MAX_DEPTH then MAX_DEPTH + 1 - depth else 0
  {
    hide ReadRun, Dotted;
    if depth <= MAX_DEPTH {
      var run := ReadRun(bytes, off);
      DottedHasNoSpaces(run.labels);
      if run.end.Pointer? { DecodedNameShape(bytes, run.end.target, depth + 1); }
    }
  }

  // ---- the wire form ----

  function EncodeLabels(labels: seq<seq<U8>>): seq<U8>
    requires forall i :: 0 <= i < |labels| ==> |labels[i]| < 64
  {
    if labels == [] then [] else [|labels[0]|] + labels[0] + EncodeLabels(labels[1..])
  }

  predicate EncodableEnd(end: Terminator) { end.Root? || (end.Pointer? && end.target < 0x4000) }

  function EncodeEnd(end: Terminator): seq<U8>
    requires EncodableEnd(end)
  {
    if end.Root? then [0] else [192 + end.target / 256, end.target % 256]
  }

  predicate WireLabels(labels: seq<seq<U8>>) { forall i :: 0 <= i < |labels| ==> 0 < |labels[i]| < 64 }

  /** Whatever the reader takes for a run of labels is, byte for byte, the encoding of that run. */
  lemma {:induction false} RunIsEncoding(bytes: seq<U8>, off: nat)
    requires !ReadRun(bytes, off).end.Broken?
    ensures var run := ReadRun(bytes, off);
            EncodableEnd(run.end) && bytes[off..run.next] == EncodeLabels(run.labels) + EncodeEnd(run.end)
    decreases |bytes| - off
  {
    var len := bytes[off];
    if len == 0 {
      assert bytes[off..off + 1] == [0];
    } else if len >= 192 {
      PointerBytes(len, bytes[off + 1]);
      assert bytes[off..off + 2] == [len, bytes[off + 1]];
    } else {
      RunIsEncoding(bytes, off + 1 + len);
      EncodingCons(bytes, off);
    }
  }

  lemma PointerBytes(high: U8, low: U8)
    requires high >= 192
    ensures EncodableEnd(Pointer(PointerTarget(high, low)))
    ensures EncodeEnd(Pointer(PointerTarget(high, low))) == [high, low]
  {}

  lemma EncodingCons(bytes: seq<U8>, off: nat)
    requires off < |bytes| && 0 < bytes[off] < 64 && off + 1 + bytes[off] <= |bytes|
    requires var rest := ReadRun(bytes, off + 1 + bytes[off]);
             !rest.end.Broken? && EncodableEnd(rest.end)
             && bytes[off + 1 + bytes[off]..rest.next] == EncodeLabels(rest.labels) + EncodeEnd(rest.end)
    ensures var run := ReadRun(bytes, off);
            !run.end.Broken? && EncodableEnd(run.end) && bytes[off..run.next] == EncodeLabels(run.labels) + EncodeEnd(run.end)
  {
    hide EncodeEnd, EncodeLabels, ReadRun;
    var len: nat := bytes[off];
    var part := bytes[off + 1..off + 1 + len];
    ReadOneLabel(bytes, off, len, part);
    var rest := ReadRun(bytes, off + 1 + len);
    EncodeCons(part, rest.labels);
    Glue(bytes, off, len, rest.next);
    ConcatAssoc([len] + part, EncodeLabels(rest.labels), EncodeEnd(rest.end));
  }

  lemma Glue(bytes: seq<U8>, off: nat, len: nat, next: nat)
    requires off + 1 + len <= next <= |bytes| && bytes[off] == len
    ensures bytes[off..next] == ([bytes[off]] + bytes[off + 1..off + 1 + len]) + bytes[off + 1 + len..next]
  {}

  lemma EncodeCons(part: seq<U8>, labels: seq<seq<U8>>)
    requires 0 < |part| < 64 && forall i :: 0 <= i < |labels| ==> |labels[i]| < 64
    ensures EncodeLabels([part] + labels) == [|part|] + part + EncodeLabels(labels)
  {
    assert ([part] + labels)[1..] == labels;
  }

  /** And every encoding is read back as the labels it encodes, wherever it stands in the message. */
  lemma {:induction false} EncodingIsRead(front: seq<U8>, labels: seq<seq<U8>>, end: Terminator, back: seq<U8>)
    requires WireLabels(labels) && EncodableEnd(end)
    ensures ReadRun(front + EncodeLabels(labels) + EncodeEnd(end) + back, |front|) ==
            LabelRun(labels, end, |front| + |EncodeLabels(labels)| + |EncodeEnd(end)|)
    decreases |labels|
  {
    hide ReadRun, EncodeEnd;
    if labels == [] {
      TerminatorIsRead(front, end, back);
      assert front + EncodeLabels(labels) == front;
    } else {
      var part, rest := labels[0], labels[1..];
      assert labels == [part] + rest;
      EncodingIsRead(front + ([|part|] + part), rest, end, back);
      EncodeCons(part, rest);
      var tail := EncodeLabels(rest) + EncodeEnd(end) + back;
      Regroup(front, [|part|] + part, EncodeLabels(rest), EncodeEnd(end), back);
      var bytes := front + ([|part|] + part) + tail;
      LabelBytes(bytes, front, part, tail);
      ReadOneLabel(bytes, |front|, |part|, part);
    }
  }

  lemma Regroup<T>(a: seq<T>, b: seq<T>, c: seq<T>, d: seq<T>, e: seq<T>)
    ensures (a + b) + c + d + e == a + b + (c + d + e) == a + (b + c) + d + e
  {}

  lemma TerminatorIsRead(front: seq<U8>, end: Terminator, back: seq<U8>)
    requires EncodableEnd(end)
    ensures ReadRun(front + EncodeEnd(end) + back, |front|) == LabelRun([], end, |front| + |EncodeEnd(end)|)
  {
    var bytes := front + EncodeEnd(end) + back;
    assert bytes[|front|] == EncodeEnd(end)[0];
    if end.Pointer? { assert bytes[|front| + 1] == EncodeEnd(end)[1]; }
  }

  lemma LabelBytes(bytes: seq<U8>, front: seq<U8>, part: seq<U8>, tail: seq<U8>)
    requires 0 < |part| < 64 && bytes == front + ([|part|] + part) + tail
    ensures |front| + 1 + |part| <= |bytes|
    ensures bytes[|front|] == |part| && bytes[|front| + 1..|front| + 1 + |part|] == part
  {}

  lemma ReadOneLabel(bytes: seq<U8>, off: nat, len: nat, part: seq<U8>)
    requires 0 < len < 64 && off + 1 + len <= |bytes| && bytes[off] == len && bytes[off + 1..off + 1 + len] == part
    ensures var rest := ReadRun(bytes, off + 1 + len);
            ReadRun(bytes, off) == LabelRun([part] + rest.labels, rest.end, rest.next)
  {}

  /** A name on the wire decodes to its labels in lower case joined by dots, followed by the name it points to. */
  lemma EncodedNameDecodes(front: seq<U8>, labels: seq<seq<U8>>, end: Terminator, back: seq<U8>, depth: nat)
    requires WireLabels(labels) && EncodableEnd(end) && |Dotted(labels)| <= 255 && depth <= MAX_DEPTH
    ensures var bytes := front + EncodeLabels(labels) + EncodeEnd(end) + back;
            DecodeName(bytes, |front|, depth) ==
              if end.Root? then Some(Dotted(labels))
              else match DecodeName(bytes, end.target, depth + 1)
                case None => None
                case Some(suffix) => Some(WithSuffix(Dotted(labels), suffix))
  {
    hide ReadRun, EncodeLabels, EncodeEnd, Dotted;
    EncodingIsRead(front, labels, end, back);
  }

  lemma {:induction false} DottedIsJoin(labels: seq<seq<U8>>)
    requires WireLabels(labels)
    ensures Dotted(labels) == Join(seq(|labels|, i requires 0 <= i < |labels| => Render(labels[i])), '.')
    ensures labels != [] ==> Dotted(labels) != ""
  {
    var parts := seq(|labels|, i requires 0 <= i < |labels| => Render(labels[i]));
    if labels != [] {
      var init := labels[..|labels| - 1];
      DottedIsJoin(init);
      var front := seq(|init|, i requires 0 <= i < |init| => Render(init[i]));
      assert parts == front + [Render(labels[|labels| - 1])];
      JoinSnoc(front, Render(labels[|labels| - 1]), '.');
    }
  }

  /** Pointers that lead into one another are rejected from each of their offsets, at every depth. */
  lemma {:induction false} PointerLoopRejected(bytes: seq<U8>, loop: set<nat>, off: nat, depth: nat)
    requires forall o :: o in loop ==> ReadRun(bytes, o).end.Pointer? && ReadRun(bytes, o).end.target in loop
    requires off in loop
    ensures DecodeName(bytes, off, depth) == None
    decreases if depth <= MAX_DEPTH then MAX_DEPTH + 1 - depth else 0
  {
    hide ReadRun, Dotted;
    if depth <= MAX_DEPTH { PointerLoopRejected(bytes, loop, ReadRun(bytes, off).end.target, depth + 1); }
  }

  /** `n` pointers on, a zero byte ends the name, and no part on the way is longer than 255 characters. */
  predicate EndsAfter(bytes: seq<U8>, off: nat, n: nat)
    decreases n
  {
    var run := ReadRun(bytes, off);
    && |Dotted(run.labels)| <= 255
    && if n == 0 then run.end.Root? else run.end.Pointer? && EndsAfter(bytes, run.end.target, n - 1)
  }

  ghost predicate EndsWithin(bytes: seq<U8>, off: nat, pointers: int) {
    exists n: nat :: n <= pointers && EndsAfter(bytes, off, n)
  }

  /** Exactly the names that end after at most twelve pointers, those of the callers included, are accepted. */
  lemma {:induction false} NameAcceptedIff(bytes: seq<U8>, off: nat, depth: nat)
    ensures DecodeName(bytes, off, depth).Some? <==> EndsWithin(bytes, off, MAX_DEPTH - depth)
    decreases if depth <= MAX_DEPTH then MAX_DEPTH + 1 - depth else 0
  {
    hide ReadRun, Dotted, EndsWithin;
    EndsStep(bytes, off, MAX_DEPTH - depth);
    if depth <= MAX_DEPTH {
      var run := ReadRun(bytes, off);
      if run.end.Pointer? { NameAcceptedIff(bytes, run.end.target, depth + 1); }
    }
  }

  lemma EndsStep(bytes: seq<U8>, off: nat, pointers: int)
    ensures var run := ReadRun(bytes, off);
            EndsWithin(bytes, off, pointers) <==>
              pointers >= 0 && |Dotted(run.labels)| <= 255
              && (run.end.Root? || (run.end.Pointer? && EndsWithin(bytes, run.end.target, pointers - 1)))
  {
    hide ReadRun, Dotted;
    var run := ReadRun(bytes, off);
    if EndsWithin(bytes, off, pointers) {
      var n: nat :| n <= pointers && EndsAfter(bytes, off, n);
      if n > 0 { assert EndsAfter(bytes, run.end.target, n - 1); }
    }
    if pointers >= 0 && |Dotted(run.labels)| <= 255 {
      if run.end.Root? {
        var n: nat := 0;
        assert EndsAfter(bytes, off, n);
      } else if run.end.Pointer? && EndsWithin(bytes, run.end.target, pointers - 1) {
        var m: nat :| m <= pointers - 1 && EndsAfter(bytes, run.end.target, m);
        var n := m + 1;
        assert EndsAfter(bytes, off, n);
      }
    }
  }

  // ---- questions, records, messages ----

  datatype DnsQuestion = DnsQuestion(name: string, qtype: U16, klass: U16)

  datatype DnsRecord = DnsRecord(name: string, rtype: U16, klass: U16, ttl: U32, data: seq<U8>, text: string)

  type U4 = x: int | 0 <= x < 16

  datatype DnsFlags = DnsFlags(
    response: bool, opcode: U4, authoritative: bool, truncated: bool, recursionDesired: bool, recursionAvailable: bool, rcode: U4)

  datatype DnsMessage = DnsMessage(
    id: U16, flags: DnsFlags, questions: seq<DnsQuestion>, answers: seq<DnsRecord>,
    authorities: seq<DnsRecord>, additionals: seq<DnsRecord>)

  /** The fields of the flag word (section 4.1.1 of RFC 1035); three reserved bits are not kept. */
  function DecodeFlags(w: U16): DnsFlags {
    DnsFlags(w / 0x8000 % 2 == 1, w / 0x800 % 16, w / 0x400 % 2 == 1, w / 0x200 % 2 == 1,
             w / 0x100 % 2 == 1, w / 0x80 % 2 == 1, w % 16)
  }

  function WithBit(q: nat, b: bool): nat { q * 2 + if b then 1 else 0 }

  function FlagWord(f: DnsFlags): nat {
    var high := WithBit(0, f.response) * 16 + f.opcode;
    WithBit(WithBit(WithBit(WithBit(high, f.authoritative), f.truncated), f.recursionDesired), f.recursionAvailable) * 0x80 + f.rcode
  }

  /** Every flag word is that of its fields up to the reserved bits, and every choice of fields comes from a word. */
  lemma FlagsRoundTrip(w: U16, f: DnsFlags)
    ensures FlagWord(DecodeFlags(w)) == w - 16 * (w / 16 % 8)
    ensures FlagWord(f) < 0x1_0000 && DecodeFlags(FlagWord(f)) == f
  {
    hide DecodeFlags, FlagWord;
    WordOfFields(w);
    FieldsOfWord(f);
  }

  lemma ShiftChain(w: U16)
    ensures w / 0x80 == w / 16 / 8 && w / 0x100 == w / 0x80 / 2 && w / 0x200 == w / 0x100 / 2
    ensures w / 0x400 == w / 0x200 / 2 && w / 0x800 == w / 0x400 / 2 && w / 0x8000 == w / 0x800 / 16 < 2
  {
    HalveLast(w, 0x80);
    HalveLast(w, 0x100);
    HalveLast(w, 0x200);
    HalveLast(w, 0x400);
  }

  lemma OneBit(q: nat)
    ensures WithBit(q / 2, q % 2 == 1) == q
  {}

  lemma FiveBits(q: nat)
    requires q < 32
    ensures WithBit(0, q / 16 % 2 == 1) * 16 + q % 16 == q
  {}

  lemma LowBits(w: U16)
    ensures w / 0x80 * 0x80 + w % 16 == w - 16 * (w / 16 % 8)
  {
    assert w / 0x80 == w / 16 / 8;
  }

  lemma WordOfFields(w: U16)
    ensures FlagWord(DecodeFlags(w)) == w - 16 * (w / 16 % 8)
  {
    hide WithBit;
    ShiftChain(w);
    FiveBits(w / 0x800);
    OneBit(w / 0x400); OneBit(w / 0x200); OneBit(w / 0x100); OneBit(w / 0x80);
    LowBits(w);
  }

  lemma OneBitMore(q: nat, b: bool)
    ensures WithBit(q, b) / 2 == q && (WithBit(q, b) % 2 == 1 <==> b)
  {}

  lemma NibbleMore(b: bool, n: U4)
    ensures var q := WithBit(0, b) * 16 + n; (q / 16 % 2 == 1 <==> b) && q % 16 == n
  {}

  lemma LowNibble(q: nat, r: U4)
    ensures (q * 0x80 + r) / 0x80 == q && (q * 0x80 + r) % 16 == r
  {
    QuotientUnique(q * 0x80 + r, 0x80, q, r);
    QuotientUnique(q * 0x80 + r, 16, q * 8, r);
  }

  /** The fields, once the successive halves of the word are known. */
  lemma DecodeHalves(w: U16, q7: nat, q8: nat, q9: nat, q10: nat, q11: nat)
    requires w / 0x80 == q7 && q7 / 2 == q8 && q8 / 2 == q9 && q9 / 2 == q10 && q10 / 2 == q11
    ensures DecodeFlags(w) ==
            DnsFlags(q11 / 16 % 2 == 1, q11 % 16, q10 % 2 == 1, q9 % 2 == 1, q8 % 2 == 1, q7 % 2 == 1, w % 16)
  {
    ShiftChain(w);
  }

  lemma WordFits(f: DnsFlags)
    ensures FlagWord(f) < 0x1_0000
  {}

  lemma FieldsOfWord(f: DnsFlags)
    ensures FlagWord(f) < 0x1_0000 && DecodeFlags(FlagWord(f)) == f
  {
    WordFits(f);
    hide WithBit, DecodeFlags;
    var q11 := WithBit(0, f.response) * 16 + f.opcode;
    var q10 := WithBit(q11, f.authoritative);
    var q9 := WithBit(q10, f.truncated);
    var q8 := WithBit(q9, f.recursionDesired);
    var q7 := WithBit(q8, f.recursionAvailable);
    NibbleMore(f.response, f.opcode);
    OneBitMore(q11, f.authoritative); OneBitMore(q10, f.truncated);
    OneBitMore(q9, f.recursionDesired); OneBitMore(q8, f.recursionAvailable);
    LowNibble(q7, f.rcode);
    DecodeHalves(FlagWord(f), q7, q8, q9, q10, q11);
  }

  function Be16(bytes: seq<U8>, off: nat): U16
    requires off + 2 <= |bytes|
  {
    var high: int := bytes[off];
    high * 256 + bytes[off + 1]
  }

  function Be32(bytes: seq<U8>, off: nat): U32
    requires off + 4 <= |bytes|
  {
    var high: int := Be16(bytes, off);
    high * 0x1_0000 + Be16(bytes, off + 2)
  }

  // ---- the text shown for record data ----

  function HexDigit(d: U4): char { if d < 10 then '0' + d as char else 'a' + (d - 10) as char }

  function HexText(data: seq<U8>): string {
    if data == [] then "" else HexText(data[..|data| - 1]) + [HexDigit(data[|data| - 1] / 16), HexDigit(data[|data| - 1] % 16)]
  }

  function Chars(data: seq<U8>): (s: string)
    ensures |s| == |data| && forall i :: 0 <= i < |s| ==> s[i] == data[i] as char
  {
    seq(|data|, i requires 0 <= i < |data| => data[i] as char)
  }

  /** Character strings from an offset on, set apart by spaces; a string that does not fit ends the text. */
  function TxtFrom(data: seq<U8>, off: nat, txt: string): string
    decreases |data| - off
  {
    if off >= |data| || off + 1 + data[off] > |data| then txt
    else
      var part := Chars(data[off + 1..off + 1 + data[off]]);
      TxtFrom(data, off + 1 + data[off], (if txt == "" then "" else txt + " ") + part)
  }

  /** Addresses, names and character strings are spelled out, other data is shown in hexadecimal. */
  function DataText(bytes: seq<U8>, rtype: U16, off: nat, length: nat): string
    requires off + length <= |bytes|
  {
    var data := bytes[off..off + length];
    if rtype == 1 && length == 4 then Ipv4ToString(Be32(bytes, off))
    else if (rtype == 2 || rtype == 5 || rtype == 12) && length > 0 && DecodeName(bytes, off, 0).Some? then DecodeName(bytes, off, 0).value
    else if rtype == 16 && length > 1 then TxtFrom(data, 0, "")
    else HexText(data)
  }

  method TxtLoop(data: seq<U8>) returns (txt: string)
    ensures txt == TxtFrom(data, 0, "")
  {
    txt := "";
    var off := 0;
    while off < |data|
      invariant off <= |data| && TxtFrom(data, off, txt) == TxtFrom(data, 0, "")
      decreases |data| - off
    {
      var len: nat := data[off];
      if len > |data| - (off + 1) { return; }
      txt := (if txt == "" then "" else txt + " ") + Chars(data[off + 1..off + 1 + len]);
      off := off + 1 + len;
    }
  }

  method HexLoop(data: seq<U8>) returns (txt: string)
    ensures txt == HexText(data)
  {
    txt := "";
    for i := 0 to |data|
      invariant txt == HexText(data[..i])
    {
      assert data[..i + 1][..i] == data[..i];
      txt := txt + [HexDigit(data[i] / 16), HexDigit(data[i] % 16)];
    }
    assert data[..|data|] == data;
  }

  method RenderData(bytes: seq<U8>, rtype: U16, off: nat, length: nat) returns (text: string)
    requires off + length <= |bytes|
    ensures text == DataText(bytes, rtype, off, length)
  {
    hide DecodeName, TxtFrom, HexText, ReadRun;
    var data := bytes[off..off + length];
    if rtype == 1 && length == 4 { return Ipv4ToString(Be32(bytes, off)); }
    if (rtype == 2 || rtype == 5 || rtype == 12) && length > 0 {
      var name, _ := ReadDnsName(bytes, off, 0);
      if name.Some? { return name.value; }
    }
    if rtype == 16 && length > 1 {
      text := TxtLoop(data);
    } else {
      text := HexLoop(data);
    }
  }

  function EncodeTxt(strings: seq<seq<U8>>): seq<U8>
    requires forall i :: 0 <= i < |strings| ==> |strings[i]| < 256
  {
    if strings == [] then [] else [|strings[0]|] + strings[0] + EncodeTxt(strings[1..])
  }

  function TxtJoined(txt: string, strings: seq<seq<U8>>): string
    decreases |strings|
  {
    if strings == [] then txt else TxtJoined((if txt == "" then "" else txt + " ") + Chars(strings[0]), strings[1..])
  }

  /** Encoded character strings read back as their texts, set apart by spaces (section 3.3 of RFC 1035). */
  lemma {:induction false} EncodedTxtReads(front: seq<U8>, strings: seq<seq<U8>>, txt: string)
    requires forall i :: 0 <= i < |strings| ==> |strings[i]| < 256
    ensures TxtFrom(front + EncodeTxt(strings), |front|, txt) == TxtJoined(txt, strings)
    decreases |strings|
  {
    hide TxtFrom;
    var data := front + EncodeTxt(strings);
    if strings == [] {
      assert data == front;
      TxtEnds(front, txt);
    } else {
      var s, tail := strings[0], EncodeTxt(strings[1..]);
      var step := [|s|] + s;
      assert data == (front + step) + tail;
      assert data[|front|] == |s| && data[|front| + 1..|front| + 1 + |s|] == s;
      TxtSteps(data, |front|, txt);
      EncodedTxtReads(front + step, strings[1..], (if txt == "" then "" else txt + " ") + Chars(s));
    }
  }

  lemma TxtEnds(data: seq<U8>, txt: string)
    ensures TxtFrom(data, |data|, txt) == txt
  {}

  lemma TxtSteps(data: seq<U8>, off: nat, txt: string)
    requires off < |data| && off + 1 + data[off] <= |data|
    ensures TxtFrom(data, off, txt) ==
            TxtFrom(data, off + 1 + data[off], (if txt == "" then "" else txt + " ") + Chars(data[off + 1..off + 1 + data[off]]))
  {}

  lemma {:induction false} TxtJoinedIsJoin(strings: seq<seq<U8>>, txt: string)
    requires forall i :: 0 <= i < |strings| ==> strings[i] != []
    requires txt != "" || strings != []
    ensures var parts := seq(|strings|, i requires 0 <= i < |strings| => Chars(strings[i]));
            TxtJoined(txt, strings) == Join((if txt == "" then [] else [txt]) + parts, ' ')
    decreases |strings|
  {
    hide Join;
    var parts := seq(|strings|, i requires 0 <= i < |strings| => Chars(strings[i]));
    if strings == [] {
      assert [txt] + parts == [txt];
      JoinedAlone(txt);
    } else {
      var rest := strings[1..];
      var restParts := seq(|rest|, i requires 0 <= i < |rest| => Chars(rest[i]));
      assert parts == [Chars(strings[0])] + restParts;
      var next := (if txt == "" then "" else txt + " ") + Chars(strings[0]);
      TxtJoinedIsJoin(rest, next);
      if txt == "" {
        assert "" + Chars(strings[0]) == Chars(strings[0]);
        assert [] + parts == [next] + restParts;
      } else {
        JoinedFront(txt, Chars(strings[0]), restParts);
        assert [txt] + parts == [txt, Chars(strings[0])] + restParts;
      }
    }
  }

  lemma JoinedAlone(a: string)
    ensures Join([a], ' ') == a
  {}

  lemma JoinedFront(a: string, b: string, rest: seq<string>)
    ensures Join([a, b] + rest, ' ') == Join([a + " " + b] + rest, ' ')
  {
    assert ([a, b] + rest)[1..] == [b] + rest;
    assert ([b] + rest)[1..] == rest && ([a + " " + b] + rest)[1..] == rest;
    if rest == [] {
      assert [b] + rest == [b];
    } else {
      assert (a + " " + b) + " " + Join(rest, ' ') == a + " " + (b + " " + Join(rest, ' '));
    }
  }

  /** The text of an address record reads back as the address; that of a name record is the name at its data. */
  lemma RecordTexts(bytes: seq<U8>, rtype: U16, off: nat, length: nat)
    requires off + length <= |bytes|
    ensures rtype == 1 && length == 4 ==> ParseIpv4(DataText(bytes, rtype, off, length)) == Some(Be32(bytes, off))
    ensures rtype in {2, 5, 12} && length > 0 && DecodeName(bytes, off, 0).Some? ==> NoSpaces(DataText(bytes, rtype, off, length))
  {
    hide DecodeName, ParseIpv4, Ipv4ToString;
    DecodedNameShape(bytes, off, 0);
    if length == 4 { Ipv4RoundTrip(Be32(bytes, off)); }
  }

  predicate HasBytes(bytes: seq<U8>, off: nat, length: nat) { off <= |bytes| && length <= |bytes| - off }

  /** A question and the offset after it: a name, then four bytes. */
  function QuestionAt(bytes: seq<U8>, off: nat): (r: Option<(DnsQuestion, nat)>)
    ensures r.Some? ==> off + 5 <= r.value.1 <= |bytes|
  {
    var name, next := DecodeName(bytes, off, 0), ReadRun(bytes, off).next;
    if name.None? || !HasBytes(bytes, next, 4) then None
    else Some((DnsQuestion(name.value, Be16(bytes, next), Be16(bytes, next + 2)), next + 4))
  }

  /** A record and the offset after it: a name, ten bytes, and the data whose length they give. */
  function RecordAt(bytes: seq<U8>, off: nat): (r: Option<(DnsRecord, nat)>)
    ensures r.Some? ==> off + 11 + |r.value.0.data| <= r.value.1 <= |bytes|
    ensures r.Some? ==> r.value.0.data == bytes[r.value.1 - |r.value.0.data|..r.value.1]
  {
    var name, next := DecodeName(bytes, off, 0), ReadRun(bytes, off).next;
    if name.None? || !HasBytes(bytes, next, 10) then None
    else
      var len := Be16(bytes, next + 8);
      if !HasBytes(bytes, next + 10, len) then None
      else Some((DnsRecord(name.value, Be16(bytes, next), Be16(bytes, next + 2), Be32(bytes, next + 4),
                           bytes[next + 10..next + 10 + len], DataText(bytes, Be16(bytes, next), next + 10, len)), next + 10 + len))
  }

  function QuestionsAt(bytes: seq<U8>, off: nat, n: nat): (r: Option<(seq<DnsQuestion>, nat)>)
    ensures r.Some? ==> |r.value.0| == n && off + 5 * n <= r.value.1 && (off <= |bytes| ==> r.value.1 <= |bytes|)
  {
    if n == 0 then Some(([], off))
    else match QuestionsAt(bytes, off, n - 1)
      case None => None
      case Some((qs, next)) =>
        match QuestionAt(bytes, next)
        case None => None
        case Some((q, after)) => Some((qs + [q], after))
  }

  function DataSize(rs: seq<DnsRecord>): nat {
    if rs == [] then 0 else DataSize(rs[..|rs| - 1]) + |rs[|rs| - 1].data|
  }

  function RecordsFrom(bytes: seq<U8>, off: nat, n: nat): (r: Option<(seq<DnsRecord>, nat)>)
    ensures r.Some? ==> |r.value.0| == n && off + 11 * n + DataSize(r.value.0) <= r.value.1 && (off <= |bytes| ==> r.value.1 <= |bytes|)
  {
    if n == 0 then Some(([], off))
    else match RecordsFrom(bytes, off, n - 1)
      case None => None
      case Some((rs, next)) =>
        match RecordAt(bytes, next)
        case None => None
        case Some((r, after)) =>
          assert (rs + [r])[..|rs|] == rs;
          Some((rs + [r], after))
  }

  method ReadQuestion(bytes: seq<U8>, start: nat) returns (q: Option<DnsQuestion>, offset: nat)
    ensures if QuestionAt(bytes, start).None? then q.None? else q.Some? && (q.value, offset) == QuestionAt(bytes, start).value
  {
    var name: Option<string>;
    name, offset := ReadDnsName(bytes, start, 0);
    if name.None? || !HasBytes(bytes, offset, 4) { return None, offset; }
    q := Some(DnsQuestion(name.value, Be16(bytes, offset), Be16(bytes, offset + 2)));
    offset := offset + 4;
  }

  method ReadRecord(bytes: seq<U8>, start: nat) returns (r: Option<DnsRecord>, offset: nat)
    ensures if RecordAt(bytes, start).None? then r.None? else r.Some? && (r.value, offset) == RecordAt(bytes, start).value
  {
    hide DecodeName, ReadRun, Be16, Be32, DataText;
    var name: Option<string>;
    name, offset := ReadDnsName(bytes, start, 0);
    if name.None? || !HasBytes(bytes, offset, 10) { return None, offset; }
    var rtype, klass, ttl := Be16(bytes, offset), Be16(bytes, offset + 2), Be32(bytes, offset + 4);
    var len := Be16(bytes, offset + 8);
    offset := offset + 10;
    if !HasBytes(bytes, offset, len) { return None, offset; }
    var text := RenderData(bytes, rtype, offset, len);
    r := Some(DnsRecord(name.value, rtype, klass, ttl, bytes[offset..offset + len], text));
    offset := offset + len;
  }

  /** One counted section: exactly `n` records, read one after the other, or failure. */
  method ReadSection(bytes: seq<U8>, start: nat, n: nat) returns (rs: Option<seq<DnsRecord>>, offset: nat)
    ensures if RecordsFrom(bytes, start, n).None? then rs.None? else rs.Some? && (rs.value, offset) == RecordsFrom(bytes, start, n).value
  {
    hide RecordAt;
    offset := start;
    var out: seq<DnsRecord> := [];
    for i := 0 to n
      invariant RecordsFrom(bytes, start, i) == Some((out, offset))
    {
      var r, after := ReadRecord(bytes, offset);
      if r.None? {
        FailedEarly(bytes, start, i + 1, n);
        return None, offset;
      }
      out, offset := out + [r.value], after;
    }
    rs := Some(out);
  }

  lemma {:induction false} FailedEarly(bytes: seq<U8>, off: nat, k: nat, n: nat)
    requires k <= n && RecordsFrom(bytes, off, k).None?
    ensures RecordsFrom(bytes, off, n).None?
    decreases n
  {
    hide RecordAt, DecodeName, ReadRun;
    if k < n { FailedEarly(bytes, off, k, n - 1); }
  }

  lemma {:induction false} QuestionsFailedEarly(bytes: seq<U8>, off: nat, k: nat, n: nat)
    requires k <= n && QuestionsAt(bytes, off, k).None?
    ensures QuestionsAt(bytes, off, n).None?
    decreases n
  {
    hide QuestionAt, DecodeName, ReadRun;
    if k < n { QuestionsFailedEarly(bytes, off, k, n - 1); }
  }

  /** A header of twelve bytes, then the four counted sections, each starting where the one before ends. */
  function MessageAt(bytes: seq<U8>): Option<(DnsMessage, nat)> {
    if |bytes| < 12 then None
    else match QuestionsAt(bytes, 12, Be16(bytes, 4))
      case None => None
      case Some((questions, o1)) =>
        match RecordsFrom(bytes, o1, Be16(bytes, 6))
        case None => None
        case Some((answers, o2)) =>
          match RecordsFrom(bytes, o2, Be16(bytes, 8))
          case None => None
          case Some((authorities, o3)) =>
            match RecordsFrom(bytes, o3, Be16(bytes, 10))
            case None => None
            case Some((additionals, o4)) =>
              Some((DnsMessage(Be16(bytes, 0), DecodeFlags(Be16(bytes, 2)), questions, answers, authorities, additionals), o4))
  }

  method ParseDnsMessage(bytes: seq<U8>) returns (msg: Option<DnsMessage>)
    ensures if MessageAt(bytes).None? then msg.None? else msg == Some(MessageAt(bytes).value.0)
  {
    hide QuestionAt, RecordsFrom, Be16;
    if |bytes| < 12 { return None; }
    var qd := Be16(bytes, 4);
    var offset := 12;
    var questions: seq<DnsQuestion> := [];
    for i := 0 to qd
      invariant QuestionsAt(bytes, 12, i) == Some((questions, offset))
    {
      var q, after := ReadQuestion(bytes, offset);
      if q.None? {
        QuestionsFailedEarly(bytes, 12, i + 1, qd);
        return None;
      }
      questions, offset := questions + [q.value], after;
    }
    var answers, o2 := ReadSection(bytes, offset, Be16(bytes, 6));
    if answers.None? { return None; }
    var authorities, o3 := ReadSection(bytes, o2, Be16(bytes, 8));
    if authorities.None? { return None; }
    var additionals, o4 := ReadSection(bytes, o3, Be16(bytes, 10));
    if additionals.None? { return None; }
    msg := Some(DnsMessage(Be16(bytes, 0), DecodeFlags(Be16(bytes, 2)), questions, answers.value, authorities.value, additionals.value));
  }

  /** An accepted message holds exactly the counts of its header, and the bytes they need at the least. */
  lemma MessageCounts(bytes: seq<U8>)
    requires MessageAt(bytes).Some?
    ensures var msg := MessageAt(bytes).value.0;
            && |msg.questions| == Be16(bytes, 4) && |msg.answers| == Be16(bytes, 6)
            && |msg.authorities| == Be16(bytes, 8) && |msg.additionals| == Be16(bytes, 10)
            && |bytes| >= MessageAt(bytes).value.1
               >= 12 + 5 * |msg.questions| + 11 * (|msg.answers| + |msg.authorities| + |msg.additionals|)
                  + DataSize(msg.answers) + DataSize(msg.authorities) + DataSize(msg.additionals)
  {
    hide QuestionsAt, RecordsFrom, Be16;
  }

  lemma {:induction false} QuestionNamesClean(bytes: seq<U8>, off: nat, n: nat)
    requires QuestionsAt(bytes, off, n).Some?
    ensures forall q :: q in QuestionsAt(bytes, off, n).value.0 ==> NoSpaces(q.name)
  {
    hide DecodeName, ReadRun;
    if n > 0 {
      QuestionNamesClean(bytes, off, n - 1);
      DecodedNameShape(bytes, QuestionsAt(bytes, off, n - 1).value.1, 0);
    }
  }

  lemma {:induction false} RecordNamesClean(bytes: seq<U8>, off: nat, n: nat)
    requires RecordsFrom(bytes, off, n).Some?
    ensures forall r :: r in RecordsFrom(bytes, off, n).value.0 ==> NoSpaces(r.name)
  {
    hide DecodeName, ReadRun;
    if n > 0 {
      RecordNamesClean(bytes, off, n - 1);
      DecodedNameShape(bytes, RecordsFrom(bytes, off, n - 1).value.1, 0);
    }
  }

  /** Names that a message shows to the indicator match: of its questions and of its answers. */
  function MessageNames(msg: DnsMessage): set<string> {
    (set q | q in msg.questions :: q.name) + (set r | r in msg.answers && r.name != "" :: r.name)
  }

  /** None of them holds a space, so the indicator index and the linear scan agree about them. */
  lemma MessageNamesAreClean(bytes: seq<U8>)
    requires MessageAt(bytes).Some?
    ensures forall n :: n in MessageNames(MessageAt(bytes).value.0) ==> NoSpaces(n) && Clean(n)
  {
    hide QuestionsAt, RecordsFrom, Be16, Clean, NoSpaces;
    var qs := QuestionsAt(bytes, 12, Be16(bytes, 4)).value;
    QuestionNamesClean(bytes, 12, Be16(bytes, 4));
    RecordNamesClean(bytes, qs.1, Be16(bytes, 6));
    forall n | n in MessageNames(MessageAt(bytes).value.0) ensures NoSpaces(n) && Clean(n) { NoSpacesIsClean(n); }
  }
}
