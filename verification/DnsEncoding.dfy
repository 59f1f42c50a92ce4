/**
 * DNS messages as they are written: a header, questions and records one after
 * the other, names with or without a pointer at their end (section 4.1 of RFC 1035).
 */
module DnsEncoding {
  import opened Collections
  import opened Text
  import opened Ipv4
  import opened DnsWire

  /** Labels and what ends them: a zero byte, or a pointer. */
  datatype WireName = WireName(labels: seq<seq<U8>>, end: Terminator)

  datatype WireQuestion = WireQuestion(name: WireName, qtype: U16, klass: U16)

  datatype WireRecord = WireRecord(name: WireName, rtype: U16, klass: U16, ttl: U32, data: seq<U8>)

  predicate Writable(n: WireName) { WireLabels(n.labels) && EncodableEnd(n.end) && |Dotted(n.labels)| <= 255 }

  predicate WritableRecord(r: WireRecord) { Writable(r.name) && |r.data| < 0x1_0000 }

  function EncodeName(n: WireName): seq<U8>
    requires Writable(n)
  {
    EncodeLabels(n.labels) + EncodeEnd(n.end)
  }

  function Put16(x: U16): (b: seq<U8>)
    ensures |b| == 2
  {
    [x / 0x100, x % 0x100]
  }

  function Put32(x: U32): (b: seq<U8>)
    ensures |b| == 4
  {
    Put16(x / 0x1_0000) + Put16(x % 0x1_0000)
  }

  function EncodeQuestion(q: WireQuestion): seq<U8>
    requires Writable(q.name)
  {
    EncodeName(q.name) + (Put16(q.qtype) + Put16(q.klass))
  }

  function RecordHeader(r: WireRecord): (b: seq<U8>)
    requires |r.data| < 0x1_0000
    ensures |b| == 10
  {
    Put16(r.rtype) + Put16(r.klass) + Put32(r.ttl) + Put16(|r.data|)
  }

  function EncodeRecord(r: WireRecord): seq<U8>
    requires WritableRecord(r)
  {
    EncodeName(r.name) + (RecordHeader(r) + r.data)
  }

  function EncodeQuestions(qs: seq<WireQuestion>): seq<U8>
    requires forall q :: q in qs ==> Writable(q.name)
  {
    if qs == [] then [] else EncodeQuestions(qs[..|qs| - 1]) + EncodeQuestion(qs[|qs| - 1])
  }

  function EncodeRecords(rs: seq<WireRecord>): seq<U8>
    requires forall r :: r in rs ==> WritableRecord(r)
  {
    if rs == [] then [] else EncodeRecords(rs[..|rs| - 1]) + EncodeRecord(rs[|rs| - 1])
  }

  /** The text of a written name inside a message: its labels, then the name that a pointer leads to, if it leads to one. */
  function NameIn(bytes: seq<U8>, n: WireName): Option<string> {
    if !n.end.Pointer? then Some(Dotted(n.labels))
    else match DecodeName(bytes, n.end.target, 1)
      case None => None
      case Some(suffix) => Some(WithSuffix(Dotted(n.labels), suffix))
  }

  lemma NameStands(front: seq<U8>, n: WireName, back: seq<U8>)
    requires Writable(n)
    ensures var bytes := front + EncodeName(n) + back;
            DecodeName(bytes, |front|, 0) == NameIn(bytes, n) && ReadRun(bytes, |front|).next == |front| + |EncodeName(n)|
  {
    hide ReadRun, DecodeName, EncodeLabels, EncodeEnd, Dotted;
    FourParts(front, EncodeLabels(n.labels), EncodeEnd(n.end), back);
    EncodingIsRead(front, n.labels, n.end, back);
    EncodedNameDecodes(front, n.labels, n.end, back, 0);
  }

  lemma Put16Reads(bytes: seq<U8>, off: nat, x: U16)
    requires off + 2 <= |bytes| && bytes[off..off + 2] == Put16(x)
    ensures Be16(bytes, off) == x
  {
    assert bytes[off] == bytes[off..off + 2][0] && bytes[off + 1] == bytes[off..off + 2][1];
  }

  lemma Put32Reads(bytes: seq<U8>, off: nat, x: U32)
    requires off + 4 <= |bytes| && bytes[off..off + 4] == Put32(x)
    ensures Be32(bytes, off) == x
  {
    hide Put16, Be16;
    assert bytes[off..off + 2] == bytes[off..off + 4][..2] == Put16(x / 0x1_0000);
    assert bytes[off + 2..off + 4] == bytes[off..off + 4][2..] == Put16(x % 0x1_0000);
    Put16Reads(bytes, off, x / 0x1_0000);
    Put16Reads(bytes, off + 2, x % 0x1_0000);
  }

  /** The question that a written one becomes. */
  function QuestionIn(bytes: seq<U8>, q: WireQuestion): Option<DnsQuestion> {
    if NameIn(bytes, q.name).None? then None else Some(DnsQuestion(NameIn(bytes, q.name).value, q.qtype, q.klass))
  }

  lemma QuestionStands(front: seq<U8>, q: WireQuestion, back: seq<U8>)
    requires Writable(q.name)
    ensures var bytes := front + EncodeQuestion(q) + back;
            QuestionAt(bytes, |front|) == if QuestionIn(bytes, q).None? then None
                                          else Some((QuestionIn(bytes, q).value, |front| + |EncodeQuestion(q)|))
  {
    hide ReadRun, DecodeName, EncodeName, Put16, Be16, NameIn;
    var bytes := front + EncodeQuestion(q) + back;
    var tail := Put16(q.qtype) + Put16(q.klass);
    assert bytes == front + EncodeName(q.name) + (tail + back);
    NameStands(front, q.name, tail + back);
    var next := |front| + |EncodeName(q.name)|;
    assert bytes[next..next + 2] == Put16(q.qtype) && bytes[next + 2..next + 4] == Put16(q.klass);
    Put16Reads(bytes, next, q.qtype);
    Put16Reads(bytes, next + 2, q.klass);
  }

  /** The record that a written one becomes, its data standing at the given offset. */
  function RecordIn(bytes: seq<U8>, r: WireRecord, data: nat): Option<DnsRecord>
    requires data + |r.data| <= |bytes|
  {
    if NameIn(bytes, r.name).None? then None
    else Some(DnsRecord(NameIn(bytes, r.name).value, r.rtype, r.klass, r.ttl, r.data, DataText(bytes, r.rtype, data, |r.data|)))
  }

  lemma HeaderStands(bytes: seq<U8>, next: nat, r: WireRecord)
    requires |r.data| < 0x1_0000 && next + 10 + |r.data| <= |bytes|
    requires bytes[next..next + 10] == RecordHeader(r)
    ensures Be16(bytes, next) == r.rtype && Be16(bytes, next + 2) == r.klass
    ensures Be32(bytes, next + 4) == r.ttl && Be16(bytes, next + 8) == |r.data|
  {
    hide Put16, Put32, Be16, Be32, RecordHeader;
    RecordHeaderParts(r);
    SliceOfSlice(bytes, next, 10, 0, 2);
    SliceOfSlice(bytes, next, 10, 2, 2);
    SliceOfSlice(bytes, next, 10, 4, 4);
    SliceOfSlice(bytes, next, 10, 8, 2);
    Put16Reads(bytes, next, r.rtype);
    Put16Reads(bytes, next + 2, r.klass);
    Put32Reads(bytes, next + 4, r.ttl);
    Put16Reads(bytes, next + 8, |r.data|);
  }

  lemma RecordHeaderParts(r: WireRecord)
    requires |r.data| < 0x1_0000
    ensures var h := RecordHeader(r);
            h[0..2] == Put16(r.rtype) && h[2..4] == Put16(r.klass) && h[4..8] == Put32(r.ttl) && h[8..10] == Put16(|r.data|)
  {
    hide Put16, Put32;
  }

  lemma RecordStands(front: seq<U8>, r: WireRecord, back: seq<U8>)
    requires WritableRecord(r)
    ensures var bytes, next := front + EncodeRecord(r) + back, |front| + |EncodeRecord(r)|;
            RecordAt(bytes, |front|) == if RecordIn(bytes, r, next - |r.data|).None? then None
                                        else Some((RecordIn(bytes, r, next - |r.data|).value, next))
  {
    hide ReadRun, DecodeName, EncodeName, RecordHeader, Be16, Be32, NameIn, DataText;
    var bytes := front + EncodeRecord(r) + back;
    var tail := RecordHeader(r) + r.data;
    assert bytes == front + EncodeName(r.name) + (tail + back);
    NameStands(front, r.name, tail + back);
    var next := |front| + |EncodeName(r.name)|;
    assert bytes[next..next + 10] == RecordHeader(r) && bytes[next + 10..next + 10 + |r.data|] == r.data;
    HeaderStands(bytes, next, r);
  }

  function QuestionsIn(bytes: seq<U8>, qs: seq<WireQuestion>): Option<seq<DnsQuestion>> {
    if qs == [] then Some([]) else
      var init, last := QuestionsIn(bytes, qs[..|qs| - 1]), QuestionIn(bytes, qs[|qs| - 1]);
      if init.None? || last.None? then None else Some(init.value + [last.value])
  }

  lemma {:induction false} QuestionsStand(front: seq<U8>, qs: seq<WireQuestion>, back: seq<U8>)
    requires forall q :: q in qs ==> Writable(q.name)
    ensures var bytes := front + EncodeQuestions(qs) + back;
            QuestionsAt(bytes, |front|, |qs|) == if QuestionsIn(bytes, qs).None? then None
                                                 else Some((QuestionsIn(bytes, qs).value, |front| + |EncodeQuestions(qs)|))
    decreases |qs|
  {
    hide QuestionAt, QuestionIn, EncodeQuestion, Writable;
    if qs != [] {
      var init, last := qs[..|qs| - 1], qs[|qs| - 1];
      assert last in qs;
      var a, b := EncodeQuestions(init), EncodeQuestion(last);
      FourParts(front, a, b, back);
      QuestionsStand(front, init, b + back);
      QuestionStands(front + a, last, back);
    }
  }

  lemma FourParts<T>(a: seq<T>, b: seq<T>, c: seq<T>, d: seq<T>)
    ensures a + (b + c) + d == a + b + (c + d) == (a + b) + c + d
  {}

  /** The records that written ones become, from the offset where the first stands. */
  function RecordsIn(bytes: seq<U8>, rs: seq<WireRecord>, start: nat): Option<seq<DnsRecord>>
    requires forall r :: r in rs ==> WritableRecord(r)
    requires start + |EncodeRecords(rs)| <= |bytes|
  {
    if rs == [] then Some([]) else
      var init, last := RecordsIn(bytes, rs[..|rs| - 1], start), rs[|rs| - 1];
      var data := start + |EncodeRecords(rs)| - |last.data|;
      var r := RecordIn(bytes, last, data);
      if init.None? || r.None? then None else Some(init.value + [r.value])
  }

  lemma {:induction false} RecordsStand(front: seq<U8>, rs: seq<WireRecord>, back: seq<U8>)
    requires forall r :: r in rs ==> WritableRecord(r)
    ensures var bytes := front + EncodeRecords(rs) + back;
            RecordsFrom(bytes, |front|, |rs|) == if RecordsIn(bytes, rs, |front|).None? then None
                                                 else Some((RecordsIn(bytes, rs, |front|).value, |front| + |EncodeRecords(rs)|))
    decreases |rs|
  {
    hide RecordAt, RecordIn, EncodeRecord, EncodeRecords, WritableRecord, RecordsFrom, RecordsIn;
    if rs == [] {
      NoRecordsStand(front, back);
    } else {
      var init, last := rs[..|rs| - 1], rs[|rs| - 1];
      assert last in rs;
      var a, b := EncodeRecords(init), EncodeRecord(last);
      EncodeRecordsSnoc(rs);
      FourParts(front, a, b, back);
      RecordsStand(front, init, b + back);
      RecordStands(front + a, last, back);
      RecordsFromSnoc(front + EncodeRecords(rs) + back, |front|, |rs|);
      RecordsInSnoc(front + EncodeRecords(rs) + back, rs, |front|);
    }
  }

  lemma NoRecordsStand(front: seq<U8>, back: seq<U8>)
    ensures EncodeRecords([]) == []
    ensures RecordsFrom(front + [] + back, |front|, 0) == Some(([], |front|)) && RecordsIn(front + [] + back, [], |front|) == Some([])
  {}

  lemma EncodeRecordsSnoc(rs: seq<WireRecord>)
    requires rs != [] && forall r :: r in rs ==> WritableRecord(r)
    ensures EncodeRecords(rs) == EncodeRecords(rs[..|rs| - 1]) + EncodeRecord(rs[|rs| - 1])
  {
    hide WritableRecord, EncodeRecord;
  }

  lemma RecordsFromSnoc(bytes: seq<U8>, off: nat, n: nat)
    requires n > 0
    ensures RecordsFrom(bytes, off, n) ==
            match RecordsFrom(bytes, off, n - 1)
            case None => None
            case Some((rs, next)) =>
              match RecordAt(bytes, next)
              case None => None
              case Some((r, after)) => Some((rs + [r], after))
  {
    hide RecordAt;
  }

  lemma RecordsInSnoc(bytes: seq<U8>, rs: seq<WireRecord>, start: nat)
    requires rs != [] && (forall r :: r in rs ==> WritableRecord(r)) && start + |EncodeRecords(rs)| <= |bytes|
    ensures var init, last := rs[..|rs| - 1], rs[|rs| - 1];
            && start + |EncodeRecords(init)| <= |bytes| && |last.data| <= |EncodeRecords(rs)|
            && var before, r := RecordsIn(bytes, init, start), RecordIn(bytes, last, start + |EncodeRecords(rs)| - |last.data|);
               RecordsIn(bytes, rs, start) == if before.None? || r.None? then None else Some(before.value + [r.value])
  {
    hide RecordIn, WritableRecord, RecordHeader, EncodeName;
    assert rs[|rs| - 1] in rs;
    RecordHoldsData(rs[|rs| - 1]);
  }

  lemma RecordHoldsData(r: WireRecord)
    requires WritableRecord(r)
    ensures |EncodeRecord(r)| >= |r.data|
  {
    hide EncodeName, RecordHeader;
  }

  datatype WireMessage = WireMessage(
    id: U16, flags: U16, questions: seq<WireQuestion>, answers: seq<WireRecord>,
    authorities: seq<WireRecord>, additionals: seq<WireRecord>)

  predicate WritableRecords(rs: seq<WireRecord>) { |rs| < 0x1_0000 && forall r :: r in rs ==> WritableRecord(r) }

  predicate WritableMessage(m: WireMessage) {
    && |m.questions| < 0x1_0000 && (forall q :: q in m.questions ==> Writable(q.name))
    && WritableRecords(m.answers) && WritableRecords(m.authorities) && WritableRecords(m.additionals)
  }

  function MessageHeader(m: WireMessage): (b: seq<U8>)
    requires WritableMessage(m)
    ensures |b| == 12
  {
    Put16(m.id) + Put16(m.flags) + Put16(|m.questions|) + Put16(|m.answers|) + Put16(|m.authorities|) + Put16(|m.additionals|)
  }

  function EncodeMessage(m: WireMessage): seq<U8>
    requires WritableMessage(m)
  {
    MessageHeader(m) + EncodeQuestions(m.questions) + EncodeRecords(m.answers) + EncodeRecords(m.authorities) + EncodeRecords(m.additionals)
  }

  lemma MessageHeaderReads(m: WireMessage, back: seq<U8>)
    requires WritableMessage(m)
    ensures var bytes := MessageHeader(m) + back;
            && Be16(bytes, 0) == m.id && Be16(bytes, 2) == m.flags && Be16(bytes, 4) == |m.questions|
            && Be16(bytes, 6) == |m.answers| && Be16(bytes, 8) == |m.authorities| && Be16(bytes, 10) == |m.additionals|
  {
    hide Put16, Be16;
    var bytes := MessageHeader(m) + back;
    assert bytes[0..2] == Put16(m.id) && bytes[2..4] == Put16(m.flags) && bytes[4..6] == Put16(|m.questions|);
    assert bytes[6..8] == Put16(|m.answers|) && bytes[8..10] == Put16(|m.authorities|) && bytes[10..12] == Put16(|m.additionals|);
    Put16Reads(bytes, 0, m.id); Put16Reads(bytes, 2, m.flags); Put16Reads(bytes, 4, |m.questions|);
    Put16Reads(bytes, 6, |m.answers|); Put16Reads(bytes, 8, |m.authorities|); Put16Reads(bytes, 10, |m.additionals|);
  }

  /** Where the four sections of a written message start. */
  function Section(m: WireMessage, k: nat): nat
    requires WritableMessage(m) && 1 <= k <= 4
  {
    if k == 1 then 12
    else if k == 2 then 12 + |EncodeQuestions(m.questions)|
    else if k == 3 then 12 + |EncodeQuestions(m.questions)| + |EncodeRecords(m.answers)|
    else 12 + |EncodeQuestions(m.questions)| + |EncodeRecords(m.answers)| + |EncodeRecords(m.authorities)|
  }

  /** The message that a written one becomes, when each of its pointers leads to a name. */
  function MessageIn(m: WireMessage): Option<DnsMessage>
    requires WritableMessage(m)
  {
    var bytes := EncodeMessage(m);
    var qs := QuestionsIn(bytes, m.questions);
    var an := RecordsIn(bytes, m.answers, Section(m, 2));
    var ns := RecordsIn(bytes, m.authorities, Section(m, 3));
    var ar := RecordsIn(bytes, m.additionals, Section(m, 4));
    if qs.None? || an.None? || ns.None? || ar.None? then None
    else Some(DnsMessage(m.id, DecodeFlags(m.flags), qs.value, an.value, ns.value, ar.value))
  }

  lemma FiveParts<T>(a: seq<T>, b: seq<T>, c: seq<T>, d: seq<T>, e: seq<T>)
    ensures a + b + c + d + e == a + (b + c + d + e)
    ensures a + b + c + d + e == a + b + (c + d + e)
    ensures a + b + c + d + e == (a + b) + c + (d + e)
    ensures a + b + c + d + e == (a + b + c) + d + e
    ensures a + b + c + d + e == (a + b + c + d) + e + []
  {}

  /**
   * A header, questions and records written one after the other read back with
   * the same fields, pointers resolved; the message is rejected exactly when
   * some pointer leads to no name.
   */
  lemma MessageReadsBack(m: WireMessage)
    requires WritableMessage(m)
    ensures MessageAt(EncodeMessage(m)) == if MessageIn(m).None? then None else Some((MessageIn(m).value, |EncodeMessage(m)|))
  {
    hide MessageHeader, EncodeQuestions, EncodeRecords, QuestionsIn, RecordsIn, QuestionsAt, RecordsFrom, Be16, DecodeFlags,
      Writable, WritableRecord;
    var h, q, an, ns, ar := MessageHeader(m), EncodeQuestions(m.questions), EncodeRecords(m.answers),
      EncodeRecords(m.authorities), EncodeRecords(m.additionals);
    FiveParts(h, q, an, ns, ar);
    MessageHeaderReads(m, q + an + ns + ar);
    QuestionsStand(h, m.questions, an + ns + ar);
    RecordsStand(h + q, m.answers, ns + ar);
    RecordsStand(h + q + an, m.authorities, ar);
    RecordsStand(h + q + an + ns, m.additionals, []);
  }

  predicate Uncompressed(m: WireMessage) {
    && (forall q :: q in m.questions ==> q.name.end.Root?)
    && forall r :: r in m.answers + m.authorities + m.additionals ==> r.name.end.Root?
  }

  lemma {:induction false} PlainQuestionsRead(bytes: seq<U8>, qs: seq<WireQuestion>)
    requires forall q :: q in qs ==> q.name.end.Root?
    ensures QuestionsIn(bytes, qs).Some? && |QuestionsIn(bytes, qs).value| == |qs|
    ensures forall i :: 0 <= i < |qs| ==> QuestionsIn(bytes, qs).value[i] == DnsQuestion(Dotted(qs[i].name.labels), qs[i].qtype, qs[i].klass)
  {
    hide Dotted;
    if qs != [] { PlainQuestionsRead(bytes, qs[..|qs| - 1]); }
  }

  predicate SameRecord(r: DnsRecord, w: WireRecord) {
    r.name == Dotted(w.name.labels) && r.rtype == w.rtype && r.klass == w.klass && r.ttl == w.ttl && r.data == w.data
  }

  lemma {:induction false} PlainRecordsRead(bytes: seq<U8>, rs: seq<WireRecord>, start: nat)
    requires forall r :: r in rs ==> WritableRecord(r) && r.name.end.Root?
    requires start + |EncodeRecords(rs)| <= |bytes|
    ensures RecordsIn(bytes, rs, start).Some? && |RecordsIn(bytes, rs, start).value| == |rs|
    ensures forall i :: 0 <= i < |rs| ==> SameRecord(RecordsIn(bytes, rs, start).value[i], rs[i])
  {
    hide Dotted, DataText, EncodeRecord, WritableRecord;
    if rs != [] {
      assert rs[|rs| - 1] in rs;
      PlainRecordsRead(bytes, rs[..|rs| - 1], start);
    }
  }

  /** Without pointers a written message is always accepted, with every field as written. */
  lemma PlainMessageReadsBack(m: WireMessage)
    requires WritableMessage(m) && Uncompressed(m)
    ensures MessageAt(EncodeMessage(m)).Some? && MessageAt(EncodeMessage(m)).value.1 == |EncodeMessage(m)|
    ensures var x := MessageAt(EncodeMessage(m)).value.0;
            && x.id == m.id && x.flags == DecodeFlags(m.flags)
            && |x.questions| == |m.questions| && |x.answers| == |m.answers|
            && |x.authorities| == |m.authorities| && |x.additionals| == |m.additionals|
            && (forall i :: 0 <= i < |x.questions| ==>
                  x.questions[i] == DnsQuestion(Dotted(m.questions[i].name.labels), m.questions[i].qtype, m.questions[i].klass))
            && (forall i :: 0 <= i < |x.answers| ==> SameRecord(x.answers[i], m.answers[i]))
            && (forall i :: 0 <= i < |x.authorities| ==> SameRecord(x.authorities[i], m.authorities[i]))
            && (forall i :: 0 <= i < |x.additionals| ==> SameRecord(x.additionals[i], m.additionals[i]))
  {
    hide MessageAt, EncodeMessage, EncodeQuestions, EncodeRecords, QuestionsIn, RecordsIn, DecodeFlags, Writable, WritableRecord,
      SameRecord, Dotted;
    MessageReadsBack(m);
    var bytes := EncodeMessage(m);
    SectionsFit(m);
    PlainQuestionsRead(bytes, m.questions);
    PlainRecordsRead(bytes, m.answers, Section(m, 2));
    PlainRecordsRead(bytes, m.authorities, Section(m, 3));
    PlainRecordsRead(bytes, m.additionals, Section(m, 4));
  }

  lemma SectionsFit(m: WireMessage)
    requires WritableMessage(m)
    ensures Section(m, 2) + |EncodeRecords(m.answers)| == Section(m, 3) && Section(m, 3) + |EncodeRecords(m.authorities)| == Section(m, 4)
    ensures Section(m, 4) + |EncodeRecords(m.additionals)| == |EncodeMessage(m)|
  {
    hide EncodeQuestions, EncodeRecords;
  }
}
