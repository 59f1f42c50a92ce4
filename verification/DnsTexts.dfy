/** The texts of a DNS message: letters of a label, record data by type, and one whole message byte by byte. */
module DnsTexts {
  import opened Collections
  import opened Text
  import opened Ipv4
  import opened DnsWire
  import opened DnsEncoding
  import opened DnsChains

  // ---- letters ----

  /** Letters come in lower case, other visible characters as they are, anything else as a question mark. */
  lemma LetterShown(c: U8)
    ensures 65 <= c <= 90 ==> RenderByte(c) as int == c + 32 && RenderByte(c) == RenderByte(c + 32)
    ensures 33 <= c <= 126 && !(65 <= c <= 90) ==> RenderByte(c) as int == c
    ensures c < 33 || c > 126 ==> RenderByte(c) == '?'
  {}

  // ---- record data ----

  /** Two hexadecimal digits for each byte, the high half first. */
  lemma {:induction false} HexTextAt(data: seq<U8>, i: nat)
    requires i < |data|
    ensures |HexText(data)| == 2 * |data|
    ensures HexText(data)[2 * i] == "0123456789abcdef"[data[i] / 16] && HexText(data)[2 * i + 1] == "0123456789abcdef"[data[i] % 16]
  {
    var n := |data| - 1;
    HexLength(data[..n]);
    HexDigitIs(data[i] / 16);
    HexDigitIs(data[i] % 16);
    hide HexDigit;
    if i < n { HexTextAt(data[..n], i); }
  }

  lemma {:induction false} HexLength(data: seq<U8>)
    ensures |HexText(data)| == 2 * |data|
  {
    if data != [] { HexLength(data[..|data| - 1]); }
  }

  lemma HexDigitIs(d: U4)
    ensures HexDigit(d) == "0123456789abcdef"[d]
  {}

  /** Which reading the text of a record follows, by type; every other type, and data that does not fit, is shown in hexadecimal. */
  lemma TextByType(bytes: seq<U8>, rtype: U16, off: nat, length: nat)
    requires off + length <= |bytes|
    ensures var text := DataText(bytes, rtype, off, length);
            var named := rtype in {2, 5, 12} && length > 0 && DecodeName(bytes, off, 0).Some?;
            && (rtype == 1 && length == 4 ==> ParseIpv4(text) == Some(Be32(bytes, off)))
            && (named ==> text == DecodeName(bytes, off, 0).value)
            && (rtype == 16 && length > 1 ==> text == TxtFrom(bytes[off..off + length], 0, ""))
            && (!(rtype == 1 && length == 4) && !named && !(rtype == 16 && length > 1) ==> text == HexText(bytes[off..off + length]))
  {
    hide DecodeName, ParseIpv4, Ipv4ToString, TxtFrom, HexText, Be32;
    if length == 4 { Ipv4RoundTrip(Be32(bytes, off)); }
  }

  // ---- one message ----

  /** A response: the question example.com A IN and the answer www.example.com A IN, its name compressed, 300 seconds, 192.0.2.1. */
  const EXAMPLE_BYTES: seq<U8> :=
    [0x12, 0x34, 0x81, 0x80, 0, 1, 0, 1, 0, 0, 0, 0] + EXAMPLE + [0, 1, 0, 1]
    + [3, 87, 87, 87, 0xC0, 0x0C, 0, 1, 0, 1, 0, 0, 1, 44, 0, 4, 192, 0, 2, 1]

  const EXAMPLE_MESSAGE :=
    WireMessage(0x1234, 0x8180,
                [WireQuestion(WireName([[101, 120, 97, 109, 112, 108, 101], [99, 111, 109]], Root), 1, 1)],
                [WireRecord(WireName([[87, 87, 87]], Pointer(12)), 1, 1, 300, [192, 0, 2, 1])], [], [])

  lemma ExampleIsWritable()
    ensures WritableMessage(EXAMPLE_MESSAGE)
  {
    hide Dotted;
    ExampleText();
  }

  lemma ExampleSections()
    ensures WritableMessage(EXAMPLE_MESSAGE)
    ensures EncodeQuestions(EXAMPLE_MESSAGE.questions) == EXAMPLE + [0, 1, 0, 1]
    ensures EncodeRecords(EXAMPLE_MESSAGE.answers) == [3, 87, 87, 87, 0xC0, 0x0C, 0, 1, 0, 1, 0, 0, 1, 44, 0, 4, 192, 0, 2, 1]
    ensures EncodeRecords([]) == []
  {
    hide EncodeLabels, EncodeEnd, Dotted, Put16, Put32;
    ExampleIsWritable();
    ExampleBytes();
    ExampleNumbers();
    var q, r := EXAMPLE_MESSAGE.questions[0], EXAMPLE_MESSAGE.answers[0];
    assert EXAMPLE_MESSAGE.questions[..0] == [] && EXAMPLE_MESSAGE.answers[..0] == [];
    assert EncodeQuestion(q) == EXAMPLE + [0, 1, 0, 1];
    assert EncodeRecord(r) == [3, 87, 87, 87, 0xC0, 0x0C] + ([0, 1, 0, 1, 0, 0, 1, 44, 0, 4] + [192, 0, 2, 1]);
  }

  lemma ExampleNumbers()
    ensures Put16(0) == [0, 0] && Put16(1) == [0, 1] && Put16(4) == [0, 4] && Put32(300) == [0, 0, 1, 44]
    ensures Put16(0x1234) == [0x12, 0x34] && Put16(0x8180) == [0x81, 0x80]
  {}

  lemma ExampleIsEncoded()
    ensures WritableMessage(EXAMPLE_MESSAGE) && EncodeMessage(EXAMPLE_MESSAGE) == EXAMPLE_BYTES
  {
    hide EncodeQuestions, EncodeRecords, Put16;
    ExampleIsWritable();
    ExampleSections();
    ExampleNumbers();
  }

  lemma ExampleAddress()
    ensures Ipv4ToString(FromBytes(192, 0, 2, 1)) == "192.0.2.1"
  {
    hide Ipv4ToString, Decimal, FromBytes;
    DottedQuad(192, 0, 2, 1);
    ExampleDecimals();
  }

  lemma ExampleDecimals()
    ensures Decimal(192) == "192" && Decimal(0) == "0" && Decimal(2) == "2" && Decimal(1) == "1"
  {
    assert Decimal(19) == "19";
  }

  lemma ExampleFlags()
    ensures DecodeFlags(0x8180) == DnsFlags(true, 0, false, false, true, true, 0)
  {}

  /** The name of the answer, inside the message. */
  lemma ExampleNames()
    ensures DecodeName(EXAMPLE_BYTES, 12, 1) == Some("example.com")
    ensures NameIn(EXAMPLE_BYTES, EXAMPLE_MESSAGE.answers[0].name) == Some("www.example.com")
    ensures NameIn(EXAMPLE_BYTES, EXAMPLE_MESSAGE.questions[0].name) == Some("example.com")
  {
    hide DecodeName, EncodeLabels, EncodeEnd, Dotted, WithSuffix, ReadRun;
    var header: seq<U8> := [0x12, 0x34, 0x81, 0x80, 0, 1, 0, 1, 0, 0, 0, 0];
    var back: seq<U8> := [0, 1, 0, 1] + [3, 87, 87, 87, 0xC0, 0x0C, 0, 1, 0, 1, 0, 0, 1, 44, 0, 4, 192, 0, 2, 1];
    ExampleBytes();
    ExampleText();
    assert EXAMPLE_BYTES == header + EXAMPLE + back;
    var labels: seq<seq<U8>> := [[101, 120, 97, 109, 112, 108, 101], [99, 111, 109]];
    assert header + EncodeLabels(labels) + EncodeEnd(Root) + back == header + EXAMPLE + back;
    EncodedNameDecodes(header, labels, Root, back, 1);
  }

  lemma ExampleData()
    ensures |EXAMPLE_BYTES| == 49 && DataText(EXAMPLE_BYTES, 1, 45, 4) == "192.0.2.1" && EXAMPLE_BYTES[45..49] == [192, 0, 2, 1]
  {
    hide Ipv4ToString;
    ExampleAddress();
    assert EXAMPLE_BYTES[45] == 192 && EXAMPLE_BYTES[46] == 0 && EXAMPLE_BYTES[47] == 2 && EXAMPLE_BYTES[48] == 1;
    assert Be32(EXAMPLE_BYTES, 45) == FromBytes(192, 0, 2, 1);
  }

  lemma OneQuestion(bytes: seq<U8>, q: WireQuestion)
    requires QuestionIn(bytes, q).Some?
    ensures QuestionsIn(bytes, [q]) == Some([QuestionIn(bytes, q).value])
  {
    hide QuestionIn;
    assert [q][..0] == [] && QuestionsIn(bytes, []) == Some([]);
    assert [] + [QuestionIn(bytes, q).value] == [QuestionIn(bytes, q).value];
  }

  lemma OneRecord(bytes: seq<U8>, r: WireRecord, start: nat)
    requires WritableRecord(r) && start + |EncodeRecords([r])| <= |bytes| && |r.data| <= |EncodeRecords([r])|
    requires RecordIn(bytes, r, start + |EncodeRecords([r])| - |r.data|).Some?
    ensures RecordsIn(bytes, [r], start) == Some([RecordIn(bytes, r, start + |EncodeRecords([r])| - |r.data|).value])
  {
    hide RecordIn, EncodeRecord, WritableRecord;
    assert [r][..0] == [] && EncodeRecords([]) == [] && RecordsIn(bytes, [], start) == Some([]);
    var read := RecordIn(bytes, r, start + |EncodeRecords([r])| - |r.data|).value;
    assert [] + [read] == [read];
  }

  /** Byte by byte: what the message with a compressed answer name reads as. */
  lemma ExampleReads()
    ensures MessageAt(EXAMPLE_BYTES) ==
            Some((DnsMessage(0x1234, DnsFlags(true, 0, false, false, true, true, 0), [DnsQuestion("example.com", 1, 1)],
                             [DnsRecord("www.example.com", 1, 1, 300, [192, 0, 2, 1], "192.0.2.1")], [], []), 49))
  {
    hide MessageAt, EncodeMessage, NameIn, DataText, DecodeFlags, EncodeQuestions, EncodeRecords, EncodeRecord, DecodeName, Writable;
    ExampleIsEncoded();
    MessageReadsBack(EXAMPLE_MESSAGE);
    ExampleSections();
    ExampleFlags();
    ExampleNames();
    ExampleData();
    var questions, answers := EXAMPLE_MESSAGE.questions, EXAMPLE_MESSAGE.answers;
    OneQuestion(EXAMPLE_BYTES, questions[0]);
    assert questions == [questions[0]] && answers == [answers[0]];
    assert Section(EXAMPLE_MESSAGE, 2) == 29 && |EncodeRecords(answers)| == 20;
    OneRecord(EXAMPLE_BYTES, answers[0], 29);
    assert QuestionsIn(EXAMPLE_BYTES, questions) == Some([DnsQuestion("example.com", 1, 1)]);
    assert RecordsIn(EXAMPLE_BYTES, answers, 29) == Some([DnsRecord("www.example.com", 1, 1, 300, [192, 0, 2, 1], "192.0.2.1")]);
  }
}
