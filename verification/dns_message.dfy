/** DNS messages (section 4.1 of RFC 1035): `ParseDNSMessage`,
    `parseResourceRecord`, `MarshalDNSMessage` and `marshalResourceRecord`,
    including the OPT pseudo-record of section 6.1.2 of RFC 6891. */
module DnsMessage {
  import opened Wrappers
  import opened Bytes
  import opened DnsHeader
  import opened DnsName

  const TypeA: u16 := 1
  const TypeNS: u16 := 2
  const TypeCNAME: u16 := 5
  const TypeMX: u16 := 15
  const TypeTXT: u16 := 16
  const TypeAAAA: u16 := 28
  const TypeOPT: u16 := 41
  const ClassIN: u16 := 1

  /** A question: `name` is the raw wire form, `parsedName` the dotted text. */
  datatype Question = Question(parsedName: Bytes, name: Bytes, qtype: u16, qclass: u16)

  /** A resource record. Go's nil `Name` (set for OPT records) is the empty
      sequence here: the marshaller appends nothing for either. For an OPT
      record `rclass` holds the UDP payload size and `ttl` the extended
      RCODE and flags. */
  datatype Record = Record(parsedName: Bytes, name: Bytes, rtype: u16, rclass: u16, ttl: u32,
                           rdata: Bytes, parsedRData: Bytes)

  datatype Message = Message(header: Header, questions: seq<Question>, answers: seq<Record>,
                             authorities: seq<Record>, additionals: seq<Record>)

  datatype RecordError =
    | RecordNameFailed(nameError: NameError)
    | FixedFieldsTruncated
    | OptDataBeyondPacket
    | RDataBeyondPacket

  datatype MessageError =
    | PacketTooShort
    | TooManyQuestions
    | QuestionNameFailed(nameError: NameError)
    | QuestionTruncated
    | AnswerFailed(recordError: RecordError)
    | AuthorityFailed(recordError: RecordError)
    | AdditionalFailed(recordError: RecordError)

  // ---------------------------------------------------------------------
  // Marshalling
  // ---------------------------------------------------------------------

  /** Everything of a record after its name: type, class, TTL, RDLENGTH
      (`uint16(len(RData))`) and RDATA. */
  function RecordTail(r: Record): Bytes {
    BE16(r.rtype) + BE16(r.rclass) + BE32(r.ttl) + BE16(ToU16(|r.rdata|)) + r.rdata
  }

  /** marshalResourceRecord */
  function MarshalRecord(r: Record): Bytes {
    r.name + RecordTail(r)
  }

  function MarshalQuestion(q: Question): Bytes {
    q.name + BE16(q.qtype) + BE16(q.qclass)
  }

  function MarshalRecords(rs: seq<Record>): Bytes
    decreases |rs|
  {
    if |rs| == 0 then [] else MarshalRecord(rs[0]) + MarshalRecords(rs[1..])
  }

  function MarshalQuestions(qs: seq<Question>): Bytes
    decreases |qs|
  {
    if |qs| == 0 then [] else MarshalQuestion(qs[0]) + MarshalQuestions(qs[1..])
  }

  /** The 12-byte header; each count is the section length cut to 16 bits. */
  function MarshalHeader(m: Message): (r: Bytes)
    ensures |r| == 12
  {
    BE16(m.header.id) + BE16(m.header.flags)
    + BE16(ToU16(|m.questions|)) + BE16(ToU16(|m.answers|))
    + BE16(ToU16(|m.authorities|)) + BE16(ToU16(|m.additionals|))
  }

  /** MarshalDNSMessage */
  function Marshal(m: Message): Bytes {
    MarshalHeader(m) + MarshalQuestions(m.questions)
    + MarshalRecords(m.answers) + MarshalRecords(m.authorities) + MarshalRecords(m.additionals)
  }

  // ---------------------------------------------------------------------
  // Sizes
  // ---------------------------------------------------------------------

  function QuestionsSize(qs: seq<Question>): nat
    decreases |qs|
  {
    if |qs| == 0 then 0 else |qs[0].name| + 4 + QuestionsSize(qs[1..])
  }

  function RecordsSize(rs: seq<Record>): nat
    decreases |rs|
  {
    if |rs| == 0 then 0 else |rs[0].name| + 10 + |rs[0].rdata| + RecordsSize(rs[1..])
  }

  lemma {:induction false} MarshalQuestionsLength(qs: seq<Question>)
    ensures |MarshalQuestions(qs)| == QuestionsSize(qs)
    decreases |qs|
  {
    if |qs| > 0 {
      MarshalQuestionsLength(qs[1..]);
    }
  }

  lemma {:induction false} MarshalRecordsLength(rs: seq<Record>)
    ensures |MarshalRecords(rs)| == RecordsSize(rs)
    decreases |rs|
  {
    if |rs| > 0 {
      MarshalRecordsLength(rs[1..]);
    }
  }

  /** The marshalled length is 12 plus every question's name and 4 bytes
      plus every record's name, 10 bytes and RDATA. */
  lemma {:induction false} MarshalLength(m: Message)
    ensures |Marshal(m)| == 12 + QuestionsSize(m.questions) + RecordsSize(m.answers)
                           + RecordsSize(m.authorities) + RecordsSize(m.additionals)
  {
    MarshalQuestionsLength(m.questions);
    MarshalRecordsLength(m.answers);
    MarshalRecordsLength(m.authorities);
    MarshalRecordsLength(m.additionals);
  }

  /** The header counts equal the section lengths (modulo 2^16). */
  lemma {:induction false} MarshalCounts(m: Message)
    ensures |Marshal(m)| >= 12
    ensures ReadBE16(Marshal(m)[4..6]) == |m.questions| % 0x1_0000
    ensures ReadBE16(Marshal(m)[6..8]) == |m.answers| % 0x1_0000
    ensures ReadBE16(Marshal(m)[8..10]) == |m.authorities| % 0x1_0000
    ensures ReadBE16(Marshal(m)[10..12]) == |m.additionals| % 0x1_0000
  {
    hide MarshalQuestions, MarshalRecords, BE16, ReadBE16;
    var b := Marshal(m);
    assert b[4..6] == BE16(ToU16(|m.questions|));
    assert b[6..8] == BE16(ToU16(|m.answers|));
    assert b[8..10] == BE16(ToU16(|m.authorities|));
    assert b[10..12] == BE16(ToU16(|m.additionals|));
  }

  // ---------------------------------------------------------------------
  // Parsing
  // ---------------------------------------------------------------------

  datatype RecordAt = RecordAt(record: Record, next: nat)

  /** The name the resolver stores for a CNAME or NS target; empty when
      the RDATA does not decode. */
  function TargetName(data: Bytes, rtype: u16, offset: nat): Bytes {
    if rtype == TypeCNAME || rtype == TypeNS then
      match ParseName(data, offset)
      case Ok(p) => p.name
      case Err(_) => []
    else []
  }

  /** The fields after a record's name, and the offset after its RDATA. */
  datatype Fixed = Fixed(rtype: u16, rclass: u16, ttl: u32, rdata: Bytes, next: nat)

  /** The ten fixed bytes after the name, then RDLENGTH bytes of RDATA;
      the two bounds errors differ only in their text. */
  function ParseFixed(data: Bytes, o: nat): (r: Result<Fixed, RecordError>)
    ensures r.Ok? ==> o + 10 <= r.value.next <= |data| && |r.value.rdata| < 0x1_0000
    ensures r.Ok? ==> data[o..r.value.next] == RecordTail(Record([], [], r.value.rtype, r.value.rclass,
                                                                 r.value.ttl, r.value.rdata, []))
  {
    if o + 10 > |data| then Err(FixedFieldsTruncated)
    else
      var rtype := ReadBE16(data[o..o + 2]);
      var rclass := ReadBE16(data[o + 2..o + 4]);
      var ttl := ReadBE32(data[o + 4..o + 8]);
      var rdlen := ReadBE16(data[o + 8..o + 10]);
      var d := o + 10;
      if d + rdlen > |data| then
        if rtype == TypeOPT then Err(OptDataBeyondPacket) else Err(RDataBeyondPacket)
      else
        FixedTail(data, o);
        Ok(Fixed(rtype, rclass, ttl, data[d..d + rdlen], d + rdlen))
  }

  /** The ten fixed bytes and the RDATA they announce are a record tail. */
  lemma FixedTail(data: Bytes, o: nat)
    requires o + 10 <= |data| && o + 10 + ReadBE16(data[o + 8..o + 10]) <= |data|
    ensures var rdlen := ReadBE16(data[o + 8..o + 10]);
            data[o..o + 10 + rdlen]
            == RecordTail(Record([], [], ReadBE16(data[o..o + 2]), ReadBE16(data[o + 2..o + 4]),
                                 ReadBE32(data[o + 4..o + 8]), data[o + 10..o + 10 + rdlen], []))
  {
    hide ReadBE16, ReadBE32, BE16, BE32;
    var rdlen := ReadBE16(data[o + 8..o + 10]);
    FixedFieldsAre(data, o);
    TwoSlices(data, o, o + 10, o + 10 + rdlen);
  }

  /** The ten fixed bytes of a record re-encode to themselves. */
  lemma {:induction false} FixedFieldsAre(data: Bytes, o: nat)
    requires o + 10 <= |data|
    ensures data[o..o + 10] == BE16(ReadBE16(data[o..o + 2])) + BE16(ReadBE16(data[o + 2..o + 4]))
                               + BE32(ReadBE32(data[o + 4..o + 8])) + BE16(ReadBE16(data[o + 8..o + 10]))
  {
    hide *;
    BE16OfRead(data[o..o + 2]);
    BE16OfRead(data[o + 2..o + 4]);
    BE32OfRead(data[o + 4..o + 8]);
    BE16OfRead(data[o + 8..o + 10]);
    TwoSlices(data, o, o + 8, o + 10);
    TwoSlices(data, o, o + 4, o + 8);
    TwoSlices(data, o, o + 2, o + 4);
  }

  /** parseResourceRecord. An OPT record (type 41) loses its name; any
      other record keeps the raw name, and a CNAME or NS record also gets
      its decoded target. */
  function ParseRecord(data: Bytes, offset: nat): (r: Result<RecordAt, RecordError>)
    ensures r.Ok? ==> offset < r.value.next <= |data| && |r.value.record.rdata| < 0x1_0000
    ensures r.Ok? && r.value.record.rtype == TypeOPT ==> r.value.record.name == [] && r.value.record.parsedName == []
  {
    match ParseNameWithWire(data, offset)
    case Err(e) => Err(RecordNameFailed(e))
    case Ok(nw) =>
      match ParseFixed(data, nw.next)
      case Err(e) => Err(e)
      case Ok(f) =>
        if f.rtype == TypeOPT then
          Ok(RecordAt(Record([], [], f.rtype, f.rclass, f.ttl, f.rdata, []), f.next))
        else
          Ok(RecordAt(Record(nw.name, nw.wire, f.rtype, f.rclass, f.ttl, f.rdata, TargetName(data, f.rtype, nw.next + 10)),
                      f.next))
  }

  /** The pieces a successful ParseRecord is built from. */
  lemma RecordParts(data: Bytes, offset: nat)
    requires ParseRecord(data, offset).Ok?
    ensures ParseNameWithWire(data, offset).Ok?
    ensures var nw := ParseNameWithWire(data, offset).value;
            && ParseFixed(data, nw.next).Ok?
            && var f := ParseFixed(data, nw.next).value;
               var rec := ParseRecord(data, offset).value;
               && rec.next == f.next
               && rec.record.rtype == f.rtype && rec.record.rclass == f.rclass
               && rec.record.ttl == f.ttl && rec.record.rdata == f.rdata
               && rec.record.name == (if f.rtype == TypeOPT then [] else nw.wire)
  {
  }

  /** A parsed record spans exactly its marshalled bytes; an OPT record's
      marshalled bytes lack the name and are only a suffix of the span. */
  lemma {:induction false} RecordSpan(data: Bytes, offset: nat)
    ensures var r := ParseRecord(data, offset);
            r.Ok? && r.value.record.rtype != TypeOPT ==> data[offset..r.value.next] == MarshalRecord(r.value.record)
    ensures var r := ParseRecord(data, offset);
            r.Ok? && r.value.record.rtype == TypeOPT ==> HasSuffixAt(data, offset, r.value.next, MarshalRecord(r.value.record))
    ensures var r := ParseRecord(data, offset);
            r.Ok? && r.value.record.rtype == TypeOPT ==> |MarshalRecord(r.value.record)| < r.value.next - offset
  {
    hide ParseRecord, ParseName, ParseFixed, ParseNameWithWire;
    var r := ParseRecord(data, offset);
    if r.Ok? {
      RecordParts(data, offset);
      var nw := ParseNameWithWire(data, offset).value;
      var f := ParseFixed(data, nw.next).value;
      var rec := r.value.record;
      assert RecordTail(rec) == RecordTail(Record([], [], f.rtype, f.rclass, f.ttl, f.rdata, []));
      assert data[nw.next..f.next] == RecordTail(rec);
      TwoSlices(data, offset, nw.next, f.next);
    }
  }

  /** `data[from..to]` ends with `s`. */
  predicate HasSuffixAt(data: Bytes, from: nat, to: nat, s: Bytes) {
    from <= to <= |data| && |s| <= to - from && data[to - |s|..to] == s
  }

  predicate NoOpt(rs: seq<Record>) {
    forall k | 0 <= k < |rs| :: rs[k].rtype != TypeOPT
  }

  datatype RecordsAt = RecordsAt(records: seq<Record>, next: nat)

  /** The `for i := 0; i < count; i++` loop over one section. */
  function ParseRecords(data: Bytes, offset: nat, count: nat): (r: Result<RecordsAt, RecordError>)
    requires offset <= |data|
    ensures r.Ok? ==> |r.value.records| == count && offset <= r.value.next <= |data|
    decreases count
  {
    if count == 0 then Ok(RecordsAt([], offset))
    else
      match ParseRecord(data, offset)
      case Err(e) => Err(e)
      case Ok(ra) =>
        match ParseRecords(data, ra.next, count - 1)
        case Err(e) => Err(e)
        case Ok(rest) => Ok(RecordsAt([ra.record] + rest.records, rest.next))
  }

  /** A parsed section without OPT records spans exactly its marshalled bytes. */
  lemma {:induction false} RecordsSpan(data: Bytes, offset: nat, count: nat)
    requires offset <= |data|
    ensures var r := ParseRecords(data, offset, count);
            r.Ok? && NoOpt(r.value.records) ==> data[offset..r.value.next] == MarshalRecords(r.value.records)
    decreases count
  {
    var r := ParseRecords(data, offset, count);
    if count > 0 && r.Ok? {
      var ra := ParseRecord(data, offset).value;
      var rest := ParseRecords(data, ra.next, count - 1).value;
      RecordsSpan(data, ra.next, count - 1);
      RecordSpan(data, offset);
      ConsRecords(data, offset, ra, rest);
    }
  }

  /** A parsed section marshals to at most the bytes it spans, and to
      fewer when it holds an OPT record. */
  lemma {:induction false} RecordsShrink(data: Bytes, offset: nat, count: nat)
    requires offset <= |data|
    ensures var r := ParseRecords(data, offset, count);
            r.Ok? ==> |MarshalRecords(r.value.records)| <= r.value.next - offset
    ensures var r := ParseRecords(data, offset, count);
            r.Ok? && !NoOpt(r.value.records) ==> |MarshalRecords(r.value.records)| < r.value.next - offset
    decreases count
  {
    hide ParseRecord, MarshalRecord;
    var r := ParseRecords(data, offset, count);
    if count > 0 && r.Ok? {
      var ra := ParseRecord(data, offset).value;
      var rest := ParseRecords(data, ra.next, count - 1).value;
      RecordsShrink(data, ra.next, count - 1);
      RecordSpan(data, offset);
      var rs := [ra.record] + rest.records;
      assert r.value.records == rs;
      assert rs[0] == ra.record && rs[1..] == rest.records;
      assert |MarshalRecords(rs)| == |MarshalRecord(ra.record)| + |MarshalRecords(rest.records)|;
      if !NoOpt(rs) && NoOpt(rest.records) {
        var k :| 0 <= k < |rs| && rs[k].rtype == TypeOPT;
        assert k == 0;
      }
    }
  }

  /** One parsed record in front of the rest of its section. */
  lemma {:induction false} ConsRecords(data: Bytes, offset: nat, ra: RecordAt, rest: RecordsAt)
    requires offset <= ra.next <= rest.next <= |data|
    requires ra.record.rtype != TypeOPT ==> data[offset..ra.next] == MarshalRecord(ra.record)
    requires NoOpt(rest.records) ==> data[ra.next..rest.next] == MarshalRecords(rest.records)
    ensures NoOpt([ra.record] + rest.records) ==>
              data[offset..rest.next] == MarshalRecords([ra.record] + rest.records)
  {
    var rs := [ra.record] + rest.records;
    if NoOpt(rs) {
      assert rs[0] == ra.record;
      assert rs[1..] == rest.records;
      forall k | 0 <= k < |rest.records| ensures rest.records[k].rtype != TypeOPT {
        assert rs[k + 1] == rest.records[k];
      }
      assert data[offset..rest.next] == data[offset..ra.next] + data[ra.next..rest.next];
    }
  }

  datatype QuestionAt = QuestionAt(question: Question, next: nat)

  /** One question: a name, then four bytes of type and class. */
  function ParseQuestion(data: Bytes, offset: nat): (r: Result<QuestionAt, MessageError>)
    ensures r.Ok? ==> offset < r.value.next <= |data|
    ensures r.Ok? ==> data[offset..r.value.next] == MarshalQuestion(r.value.question)
  {
    match ParseNameWithWire(data, offset)
    case Err(e) => Err(QuestionNameFailed(e))
    case Ok(nw) =>
      var o := nw.next;
      if o + 4 > |data| then Err(QuestionTruncated)
      else
        var q := Question(nw.name, nw.wire, ReadBE16(data[o..o + 2]), ReadBE16(data[o + 2..o + 4]));
        BE16OfRead(data[o..o + 2]);
        BE16OfRead(data[o + 2..o + 4]);
        assert data[offset..o + 4] == data[offset..o] + data[o..o + 2] + data[o + 2..o + 4];
        Ok(QuestionAt(q, o + 4))
  }

  /** The question section: QDCOUNT is 0 or 1 by the time it is read. */
  datatype QuestionsAt = QuestionsAt(questions: seq<Question>, next: nat)

  function ParseQuestions(data: Bytes, count: nat): (r: Result<QuestionsAt, MessageError>)
    requires count <= 1 && 12 <= |data|
    ensures r.Ok? ==> |r.value.questions| == count && 12 <= r.value.next <= |data|
    ensures r.Ok? ==> data[12..r.value.next] == MarshalQuestions(r.value.questions)
  {
    if count == 0 then Ok(QuestionsAt([], 12))
    else
      match ParseQuestion(data, 12)
      case Err(e) => Err(e)
      case Ok(qa) =>
        assert MarshalQuestions([qa.question]) == MarshalQuestion(qa.question) + MarshalQuestions([]);
        Ok(QuestionsAt([qa.question], qa.next))
  }

  /** The header a parse reads from the first twelve bytes. */
  function ParsedHeader(data: Bytes): Header
    requires 12 <= |data|
  {
    Header(ReadBE16(data[0..2]), ReadBE16(data[2..4]))
  }

  /** A parsed message and the offset just past its last record. */
  datatype MessageAt = MessageAt(message: Message, next: nat)

  function ParseMessageAt(data: Bytes): (r: Result<MessageAt, MessageError>)
    ensures |data| < 12 ==> r == Err(PacketTooShort)
    ensures |data| >= 12 && ReadBE16(data[4..6]) > 1 ==> r == Err(TooManyQuestions)
    ensures r.Ok? ==> 12 <= r.value.next <= |data|
    ensures r.Ok? ==>
              var m := r.value.message;
              m.header == ParsedHeader(data)
              && |m.questions| == ReadBE16(data[4..6]) && |m.answers| == ReadBE16(data[6..8])
              && |m.authorities| == ReadBE16(data[8..10]) && |m.additionals| == ReadBE16(data[10..12])
  {
    if |data| < 12 then Err(PacketTooShort)
    else
      var qd := ReadBE16(data[4..6]);
      var an := ReadBE16(data[6..8]);
      var ns := ReadBE16(data[8..10]);
      var ar := ReadBE16(data[10..12]);
      if qd > 1 then Err(TooManyQuestions)
      else
        match ParseQuestions(data, qd)
        case Err(e) => Err(e)
        case Ok(qs) =>
          match ParseRecords(data, qs.next, an)
          case Err(e) => Err(AnswerFailed(e))
          case Ok(ans) =>
            match ParseRecords(data, ans.next, ns)
            case Err(e) => Err(AuthorityFailed(e))
            case Ok(auth) =>
              match ParseRecords(data, auth.next, ar)
              case Err(e) => Err(AdditionalFailed(e))
              case Ok(add) =>
                Ok(MessageAt(Message(ParsedHeader(data), qs.questions, ans.records, auth.records, add.records),
                             add.next))
  }

  /** ParseDNSMessage */
  function ParseMessage(data: Bytes): (r: Result<Message, MessageError>)
    ensures r.Ok? <==> ParseMessageAt(data).Ok?
    ensures r.Ok? ==> r.value == ParseMessageAt(data).value.message
  {
    match ParseMessageAt(data)
    case Err(e) => Err(e)
    case Ok(ma) => Ok(ma.message)
  }

  /** A question lacking its type and class bytes fails the parse. */
  lemma {:induction false} TruncatedQuestionFails()
    ensures ParseMessage([0, 0, 0, 0, 0, 1, 0, 0, 0, 0, 0, 0, 0, 0, 1]) == Err(QuestionTruncated)
  {
    var data: Bytes := [0, 0, 0, 0, 0, 1, 0, 0, 0, 0, 0, 0, 0, 0, 1];
    assert ReadBE16(data[4..6]) == 1;
    assert ParseName(data, 12) == Ok(Parsed([], 13));
    assert ParseNameWithWire(data, 12).Ok?;
  }

  // ---------------------------------------------------------------------
  // Parse, then marshal
  // ---------------------------------------------------------------------

  predicate MessageNoOpt(m: Message) {
    NoOpt(m.answers) && NoOpt(m.authorities) && NoOpt(m.additionals)
  }

  /** The header a parse reads marshals back to the first twelve bytes. */
  lemma {:induction false} HeaderRoundTrip(data: Bytes, m: Message)
    requires 12 <= |data| && m.header == ParsedHeader(data)
    requires |m.questions| == ReadBE16(data[4..6]) && |m.answers| == ReadBE16(data[6..8])
    requires |m.authorities| == ReadBE16(data[8..10]) && |m.additionals| == ReadBE16(data[10..12])
    ensures MarshalHeader(m) == data[..12]
  {
    BE16OfRead(data[0..2]);
    BE16OfRead(data[2..4]);
    BE16OfRead(data[4..6]);
    BE16OfRead(data[6..8]);
    BE16OfRead(data[8..10]);
    BE16OfRead(data[10..12]);
    assert ToU16(|m.questions|) == |m.questions|;
    assert ToU16(|m.answers|) == |m.answers|;
    assert ToU16(|m.authorities|) == |m.authorities|;
    assert ToU16(|m.additionals|) == |m.additionals|;
    assert MarshalHeader(m) == data[0..2] + data[2..4] + data[4..6] + data[6..8] + data[8..10] + data[10..12];
    TwelveBytes(data);
  }

  lemma {:induction false} TwelveBytes(data: Bytes)
    requires 12 <= |data|
    ensures data[..12] == data[0..2] + data[2..4] + data[4..6] + data[6..8] + data[8..10] + data[10..12]
  {
    var r := data[0..2] + data[2..4] + data[4..6] + data[6..8] + data[8..10] + data[10..12];
    assert |r| == 12;
    assert forall i | 0 <= i < 12 :: r[i] == data[i];
  }

  /** Five adjacent slices make one. */
  lemma {:induction false} Adjacent(data: Bytes, a: nat, b: nat, c: nat, d: nat, e: nat, f: nat)
    requires a <= b <= c <= d <= e <= f <= |data|
    ensures data[a..f] == data[a..b] + data[b..c] + data[c..d] + data[d..e] + data[e..f]
  {
    TwoSlices(data, a, b, c);
    TwoSlices(data, a, c, d);
    TwoSlices(data, a, d, e);
    TwoSlices(data, a, e, f);
  }

  lemma TwoSlices(data: Bytes, a: nat, b: nat, c: nat)
    requires a <= b <= c <= |data|
    ensures data[a..c] == data[a..b] + data[b..c]
  {
  }

  /** Marshalling a parsed message without OPT records gives back the bytes
      the parser consumed: any trailing bytes are dropped, nothing else
      changes. */
  lemma {:induction false} ParseThenMarshal(data: Bytes)
    ensures var r := ParseMessageAt(data);
            r.Ok? && MessageNoOpt(r.value.message) ==> Marshal(r.value.message) == data[..r.value.next]
  {
    var r := ParseMessageAt(data);
    if r.Ok? && MessageNoOpt(r.value.message) {
      var m := r.value.message;
      var qs := ParseQuestions(data, ReadBE16(data[4..6])).value;
      var ans := ParseRecords(data, qs.next, ReadBE16(data[6..8])).value;
      var auth := ParseRecords(data, ans.next, ReadBE16(data[8..10])).value;
      var add := ParseRecords(data, auth.next, ReadBE16(data[10..12])).value;
      assert m == Message(ParsedHeader(data), qs.questions, ans.records, auth.records, add.records);
      assert r.value.next == add.next;
      RecordsSpan(data, qs.next, ReadBE16(data[6..8]));
      RecordsSpan(data, ans.next, ReadBE16(data[8..10]));
      RecordsSpan(data, auth.next, ReadBE16(data[10..12]));
      HeaderRoundTrip(data, m);
      Adjacent(data, 0, 12, qs.next, ans.next, auth.next, add.next);
    }
  }

  /** A parsed message with an OPT record marshals to fewer bytes than the
      parser consumed: the record's name is dropped, so the pair does not
      round-trip. */
  lemma {:induction false} OptMessageShrinks(data: Bytes)
    ensures var r := ParseMessageAt(data);
            r.Ok? && !MessageNoOpt(r.value.message) ==> |Marshal(r.value.message)| < r.value.next
  {
    hide ParseRecords, ParseRecord, ParseQuestion, MarshalRecords, MarshalQuestions, MarshalHeader;
    var r := ParseMessageAt(data);
    if r.Ok? && !MessageNoOpt(r.value.message) {
      var m := r.value.message;
      var qs := ParseQuestions(data, ReadBE16(data[4..6])).value;
      var ans := ParseRecords(data, qs.next, ReadBE16(data[6..8])).value;
      var auth := ParseRecords(data, ans.next, ReadBE16(data[8..10])).value;
      var add := ParseRecords(data, auth.next, ReadBE16(data[10..12])).value;
      assert m == Message(ParsedHeader(data), qs.questions, ans.records, auth.records, add.records);
      RecordsShrink(data, qs.next, ReadBE16(data[6..8]));
      RecordsShrink(data, ans.next, ReadBE16(data[8..10]));
      RecordsShrink(data, auth.next, ReadBE16(data[10..12]));
    }
  }

  /** Parsing then marshalling gives back exactly the consumed bytes if and
      only if the message holds no OPT record. */
  lemma {:induction false} ParseThenMarshalIff(data: Bytes)
    ensures var r := ParseMessageAt(data);
            r.Ok? ==> (Marshal(r.value.message) == data[..r.value.next] <==> MessageNoOpt(r.value.message))
  {
    ParseThenMarshal(data);
    OptMessageShrinks(data);
  }

  // ---------------------------------------------------------------------
  // Marshal, then parse
  // ---------------------------------------------------------------------

  /** The bytes `a + b` sit at `off`: then `a` sits at `off` and `b` after it. */
  lemma {:induction false} SliceSplit(data: Bytes, off: nat, a: Bytes, b: Bytes)
    requires off + |a| + |b| <= |data| && data[off..off + |a| + |b|] == a + b
    ensures data[off..off + |a|] == a
    ensures data[off + |a|..off + |a| + |b|] == b
  {
    assert data[off..off + |a|] == (a + b)[..|a|];
    assert data[off + |a|..off + |a| + |b|] == (a + b)[|a|..];
  }

  /** A record the parser reads back field for field. */
  predicate PlainRecord(r: Record) {
    PlainName(r.name) && r.rtype != TypeOPT && |r.rdata| < 0x1_0000
  }

  /** The fields marshalling preserves: raw names, types, classes, TTLs, RDATA. */
  function WireRecord(r: Record): Record {
    r.(parsedName := [], parsedRData := [])
  }

  function WireRecords(rs: seq<Record>): seq<Record>
    decreases |rs|
  {
    if |rs| == 0 then [] else [WireRecord(rs[0])] + WireRecords(rs[1..])
  }

  /** The ten fixed bytes and the RDATA of a record read back as written. */
  lemma {:induction false} FixedParses(data: Bytes, o: nat, rtype: u16, rclass: u16, ttl: u32, rdata: Bytes)
    requires |rdata| < 0x1_0000
    requires o + 10 + |rdata| <= |data|
    requires data[o..o + 10 + |rdata|] == RecordTail(Record([], [], rtype, rclass, ttl, rdata, []))
    ensures ParseFixed(data, o) == Ok(Fixed(rtype, rclass, ttl, rdata, o + 10 + |rdata|))
  {
    TailSlices(data, o, BE16(rtype), BE16(rclass), BE32(ttl), BE16(|rdata|), rdata);
  }

  /** The pieces of a record tail sit at their fixed offsets. */
  lemma {:induction false} TailSlices(data: Bytes, o: nat, a: Bytes, b: Bytes, c: Bytes, d: Bytes, rest: Bytes)
    requires |a| == 2 && |b| == 2 && |c| == 4 && |d| == 2
    requires o + 10 + |rest| <= |data| && data[o..o + 10 + |rest|] == a + b + c + d + rest
    ensures data[o..o + 2] == a && data[o + 2..o + 4] == b && data[o + 4..o + 8] == c
    ensures data[o + 8..o + 10] == d && data[o + 10..o + 10 + |rest|] == rest
  {
    SliceSplit(data, o, a, b + c + d + rest);
    assert a + b + c + d + rest == a + (b + c + d + rest);
    SliceSplit(data, o + 2, b, c + d + rest);
    assert b + c + d + rest == b + (c + d + rest);
    SliceSplit(data, o + 4, c, d + rest);
    assert c + d + rest == c + (d + rest);
    SliceSplit(data, o + 8, d, rest);
  }

  /** A name and fixed part that parse make a record that parses. */
  lemma RecordOfParts(data: Bytes, off: nat, nw: NameWithWire, f: Fixed)
    requires ParseNameWithWire(data, off) == Ok(nw) && ParseFixed(data, nw.next) == Ok(f)
    requires f.rtype != TypeOPT
    ensures ParseRecord(data, off)
            == Ok(RecordAt(Record(nw.name, nw.wire, f.rtype, f.rclass, f.ttl, f.rdata, TargetName(data, f.rtype, nw.next + 10)), f.next))
  {
  }

  /** A plain record marshalled at `off` parses back to its wire fields. */
  lemma {:induction false} RecordParses(data: Bytes, off: nat, r: Record)
    requires PlainRecord(r)
    requires off + |MarshalRecord(r)| <= |data| && data[off..off + |MarshalRecord(r)|] == MarshalRecord(r)
    ensures ParseRecord(data, off).Ok?
    ensures WireRecord(ParseRecord(data, off).value.record) == WireRecord(r)
    ensures ParseRecord(data, off).value.record.parsedName == DottedName(PlainLabels(r.name).value)
    ensures ParseRecord(data, off).value.next == off + |MarshalRecord(r)|
  {
    hide ParseRecord, ParseNameWithWire, ParseFixed, ParseName;
    var tail := RecordTail(r);
    assert MarshalRecord(r) == r.name + tail;
    SliceSplit(data, off, r.name, tail);
    PlainNameParses(data, off, r.name);
    var o := off + |r.name|;
    assert RecordTail(Record([], [], r.rtype, r.rclass, r.ttl, r.rdata, [])) == tail;
    FixedParses(data, o, r.rtype, r.rclass, r.ttl, r.rdata);
    var nw := NameWithWire(DottedName(PlainLabels(r.name).value), r.name, o);
    var f := Fixed(r.rtype, r.rclass, r.ttl, r.rdata, o + 10 + |r.rdata|);
    RecordOfParts(data, off, nw, f);
  }

  lemma {:induction false} NoRecords(data: Bytes, off: nat)
    requires off <= |data|
    ensures ParseRecords(data, off, 0) == Ok(RecordsAt([], off))
  {
  }

  predicate PlainRecords(rs: seq<Record>) {
    forall k | 0 <= k < |rs| :: PlainRecord(rs[k])
  }

  /** `n` plain records marshalled at `off` parse back to their wire fields. */
  lemma {:induction false} RecordsParse(data: Bytes, off: nat, rs: seq<Record>, n: nat)
    requires n == |rs| && PlainRecords(rs)
    requires off + |MarshalRecords(rs)| <= |data| && data[off..off + |MarshalRecords(rs)|] == MarshalRecords(rs)
    ensures ParseRecords(data, off, n).Ok?
    ensures WireRecords(ParseRecords(data, off, n).value.records) == WireRecords(rs)
    ensures ParseRecords(data, off, n).value.next == off + |MarshalRecords(rs)|
    decreases n
  {
    if n > 0 {
      hide ParseRecords, ParseRecord, MarshalRecords, MarshalRecord, WireRecords, WireRecord;
      var o2 := FirstRecordParses(data, off, rs);
      RecordsParse(data, o2, rs[1..], n - 1);
      NextRecordsParse(data, off, rs, n, o2);
    } else {
      NoRecords(data, off);
    }
  }

  /** The first of several marshalled records parses; the rest follow it. */
  lemma {:induction false} FirstRecordParses(data: Bytes, off: nat, rs: seq<Record>) returns (o2: nat)
    requires |rs| > 0 && PlainRecords(rs)
    requires off + |MarshalRecords(rs)| <= |data| && data[off..off + |MarshalRecords(rs)|] == MarshalRecords(rs)
    ensures o2 == off + |MarshalRecord(rs[0])|
    ensures ParseRecord(data, off).Ok? && ParseRecord(data, off).value.next == o2
    ensures WireRecord(ParseRecord(data, off).value.record) == WireRecord(rs[0])
    ensures PlainRecords(rs[1..])
    ensures o2 + |MarshalRecords(rs[1..])| == off + |MarshalRecords(rs)| <= |data|
    ensures data[o2..o2 + |MarshalRecords(rs[1..])|] == MarshalRecords(rs[1..])
  {
    hide ParseRecord, WireRecord;
    var head := MarshalRecord(rs[0]);
    var tail := MarshalRecords(rs[1..]);
    o2 := off + |head|;
    SliceSplit(data, off, head, tail);
    RecordParses(data, off, rs[0]);
  }

  /** The parsed first record in front of the parsed rest is the whole section. */
  lemma {:induction false} NextRecordsParse(data: Bytes, off: nat, rs: seq<Record>, n: nat, o2: nat)
    requires n == |rs| > 0 && off <= o2 <= |data|
    requires ParseRecord(data, off).Ok? && ParseRecord(data, off).value.next == o2
    requires WireRecord(ParseRecord(data, off).value.record) == WireRecord(rs[0])
    requires ParseRecords(data, o2, n - 1).Ok?
    requires WireRecords(ParseRecords(data, o2, n - 1).value.records) == WireRecords(rs[1..])
    ensures ParseRecords(data, off, n).Ok?
    ensures WireRecords(ParseRecords(data, off, n).value.records) == WireRecords(rs)
    ensures ParseRecords(data, off, n).value.next == ParseRecords(data, o2, n - 1).value.next
  {
    hide ParseRecord, WireRecord;
    var ra := ParseRecord(data, off).value;
    var rest := ParseRecords(data, o2, n - 1).value;
    RecordsCons(data, off, n);
    WireRecordsCons(ra.record, rest.records);
    assert [rs[0]] + rs[1..] == rs;
    WireRecordsCons(rs[0], rs[1..]);
  }

  /** One more record in front of a parsed section. */
  lemma {:induction false} RecordsCons(data: Bytes, off: nat, n: nat)
    requires off <= |data| && n > 0
    ensures var ra := ParseRecord(data, off);
            ra.Ok? && ParseRecords(data, ra.value.next, n - 1).Ok? ==>
              ParseRecords(data, off, n)
              == Ok(RecordsAt([ra.value.record] + ParseRecords(data, ra.value.next, n - 1).value.records,
                              ParseRecords(data, ra.value.next, n - 1).value.next))
  {
  }

  lemma {:induction false} WireRecordsCons(r: Record, rs: seq<Record>)
    ensures WireRecords([r] + rs) == [WireRecord(r)] + WireRecords(rs)
  {
    assert ([r] + rs)[1..] == rs;
  }

  /** A question the parser reads back field for field. */
  predicate PlainQuestion(q: Question) {
    PlainName(q.name)
  }

  /** A message the parser reads back: at most one question, no OPT record,
      plain names, and every count and RDATA length within 16 bits. */
  predicate PlainMessage(m: Message) {
    |m.questions| <= 1 && (|m.questions| == 1 ==> PlainQuestion(m.questions[0]))
    && |m.answers| < 0x1_0000 && |m.authorities| < 0x1_0000 && |m.additionals| < 0x1_0000
    && PlainRecords(m.answers) && PlainRecords(m.authorities) && PlainRecords(m.additionals)
  }

  function WireQuestion(q: Question): Question {
    q.(parsedName := [])
  }

  function WireQuestions(qs: seq<Question>): seq<Question>
    decreases |qs|
  {
    if |qs| == 0 then [] else [WireQuestion(qs[0])] + WireQuestions(qs[1..])
  }

  /** The message as it travels: the decoded-text fields cleared. */
  function WireMessage(m: Message): Message {
    Message(m.header, WireQuestions(m.questions),
            WireRecords(m.answers), WireRecords(m.authorities), WireRecords(m.additionals))
  }

  /** Where the sections of a marshalled message start. */
  datatype Layout = Layout(questions: nat, answers: nat, authorities: nat, additionals: nat, end: nat)

  function LayoutOf(m: Message): Layout {
    var o1 := 12 + |MarshalQuestions(m.questions)|;
    var o2 := o1 + |MarshalRecords(m.answers)|;
    var o3 := o2 + |MarshalRecords(m.authorities)|;
    Layout(12, o1, o2, o3, o3 + |MarshalRecords(m.additionals)|)
  }

  /** Each section of a marshalled message sits at its layout offset. */
  lemma {:induction false} MarshalSections(m: Message)
    ensures var data, l := Marshal(m), LayoutOf(m);
            && |data| == l.end
            && data[..12] == MarshalHeader(m)
            && data[12..l.answers] == MarshalQuestions(m.questions)
            && data[l.answers..l.authorities] == MarshalRecords(m.answers)
            && data[l.authorities..l.additionals] == MarshalRecords(m.authorities)
            && data[l.additionals..l.end] == MarshalRecords(m.additionals)
  {
    hide MarshalHeader, MarshalQuestions, MarshalRecords, MarshalRecord, MarshalQuestion;
    var h, q, a, n, r := MarshalHeader(m), MarshalQuestions(m.questions), MarshalRecords(m.answers),
                         MarshalRecords(m.authorities), MarshalRecords(m.additionals);
    Pieces(Marshal(m), h, q, a, n, r);
  }

  /** Five sequences laid end to end sit at the running sums of their lengths. */
  lemma {:induction false} Pieces(data: Bytes, a: Bytes, b: Bytes, c: Bytes, d: Bytes, e: Bytes)
    requires data == a + b + c + d + e
    ensures var i := |a|; var j := i + |b|; var k := j + |c|; var l := k + |d|;
            && data[..i] == a && data[i..j] == b && data[j..k] == c && data[k..l] == d && data[l..] == e
  {
    var i := |a|;
    var j := i + |b|;
    var k := j + |c|;
    var l := k + |d|;
    assert data[..i] == a;
    assert data[i..] == b + c + d + e;
    assert data[i..j] == (b + c + d + e)[..|b|] == b;
    assert data[j..] == c + d + e;
    assert data[j..k] == (c + d + e)[..|c|] == c;
    assert data[k..] == d + e;
    assert data[k..l] == (d + e)[..|d|] == d;
  }

  /** A marshalled header reads back as the message's header and counts. */
  lemma {:induction false} MarshalHeaderReads(m: Message, data: Bytes)
    requires |m.questions| < 0x1_0000 && |m.answers| < 0x1_0000
    requires |m.authorities| < 0x1_0000 && |m.additionals| < 0x1_0000
    requires 12 <= |data| && data[..12] == MarshalHeader(m)
    ensures ParsedHeader(data) == m.header
    ensures ReadBE16(data[4..6]) == |m.questions| && ReadBE16(data[6..8]) == |m.answers|
    ensures ReadBE16(data[8..10]) == |m.authorities| && ReadBE16(data[10..12]) == |m.additionals|
  {
    hide BE16, ReadBE16, Marshal;
    var h := MarshalHeader(m);
    assert data[0..2] == h[0..2] == BE16(m.header.id);
    assert data[2..4] == h[2..4] == BE16(m.header.flags);
    assert data[4..6] == h[4..6] == BE16(|m.questions|);
    assert data[6..8] == h[6..8] == BE16(|m.answers|);
    assert data[8..10] == h[8..10] == BE16(|m.authorities|);
    assert data[10..12] == h[10..12] == BE16(|m.additionals|);
  }

  /** A plain question marshalled at offset 12 parses back. */
  lemma {:induction false} QuestionsParse(data: Bytes, qs: seq<Question>, n: nat)
    requires n == |qs| <= 1 && (n == 1 ==> PlainQuestion(qs[0]))
    requires 12 + |MarshalQuestions(qs)| <= |data| && data[12..12 + |MarshalQuestions(qs)|] == MarshalQuestions(qs)
    ensures ParseQuestions(data, n).Ok?
    ensures WireQuestions(ParseQuestions(data, n).value.questions) == WireQuestions(qs)
    ensures ParseQuestions(data, n).value.next == 12 + |MarshalQuestions(qs)|
    ensures n == 1 ==> ParseQuestions(data, n).value.questions[0].parsedName == DottedName(PlainLabels(qs[0].name).value)
  {
    hide Marshal, MarshalHeader, MarshalRecords, MarshalRecord, ParseRecords, ParseRecord, DottedName, PlainLabels;
    if n == 1 {
      var q := qs[0];
      var tail := BE16(q.qtype) + BE16(q.qclass);
      assert MarshalQuestions(qs) == q.name + tail by {
        assert MarshalQuestions(qs) == MarshalQuestion(q) + MarshalQuestions([]);
      }
      SliceSplit(data, 12, q.name, tail);
      PlainNameParses(data, 12, q.name);
      var o := 12 + |q.name|;
      SliceSplit(data, o, BE16(q.qtype), BE16(q.qclass));
      var pq := ParseQuestion(data, 12).value.question;
      assert pq.name == q.name && pq.qtype == q.qtype && pq.qclass == q.qclass;
      assert WireQuestion(pq) == WireQuestion(q);
    }
  }

  /** Each record section of a marshalled plain message parses back from
      its layout offset to the next one. */
  lemma {:induction false} AnswersParse(m: Message)
    requires PlainMessage(m)
    ensures var data, l := Marshal(m), LayoutOf(m);
            var r := ParseRecords(data, l.answers, |m.answers|);
            r.Ok? && WireRecords(r.value.records) == WireRecords(m.answers) && r.value.next == l.authorities
  {
    hide Marshal, MarshalRecords, MarshalRecord, MarshalQuestions, MarshalHeader, ParseRecords, ParseRecord, PlainRecords;
    var data, l := Marshal(m), LayoutOf(m);
    MarshalSections(m);
    RecordsParse(data, l.answers, m.answers, |m.answers|);
  }

  lemma {:induction false} AuthoritiesParse(m: Message)
    requires PlainMessage(m)
    ensures var data, l := Marshal(m), LayoutOf(m);
            var r := ParseRecords(data, l.authorities, |m.authorities|);
            r.Ok? && WireRecords(r.value.records) == WireRecords(m.authorities) && r.value.next == l.additionals
  {
    hide Marshal, MarshalRecords, MarshalRecord, MarshalQuestions, MarshalHeader, ParseRecords, ParseRecord, PlainRecords;
    var data, l := Marshal(m), LayoutOf(m);
    MarshalSections(m);
    RecordsParse(data, l.authorities, m.authorities, |m.authorities|);
  }

  lemma {:induction false} AdditionalsParse(m: Message)
    requires PlainMessage(m)
    ensures var data, l := Marshal(m), LayoutOf(m);
            var r := ParseRecords(data, l.additionals, |m.additionals|);
            r.Ok? && WireRecords(r.value.records) == WireRecords(m.additionals) && r.value.next == l.end
  {
    hide Marshal, MarshalRecords, MarshalRecord, MarshalQuestions, MarshalHeader, ParseRecords, ParseRecord, PlainRecords;
    var data, l := Marshal(m), LayoutOf(m);
    MarshalSections(m);
    assert data[l.additionals..] == MarshalRecords(m.additionals);
    RecordsParse(data, l.additionals, m.additionals, |m.additionals|);
  }

  lemma {:induction false} HeaderAndQuestionParse(m: Message)
    requires PlainMessage(m)
    ensures var data := Marshal(m);
            && 12 <= |data| && ParsedHeader(data) == m.header
            && ReadBE16(data[4..6]) == |m.questions| && ReadBE16(data[6..8]) == |m.answers|
            && ReadBE16(data[8..10]) == |m.authorities| && ReadBE16(data[10..12]) == |m.additionals|
    ensures var data := Marshal(m);
            var r := ParseQuestions(data, |m.questions|);
            && r.Ok? && WireQuestions(r.value.questions) == WireQuestions(m.questions)
            && r.value.next == LayoutOf(m).answers
            && (|m.questions| == 1 ==>
                  r.value.questions[0].parsedName == DottedName(PlainLabels(m.questions[0].name).value))
  {
    hide MarshalRecords, MarshalRecord, ParseRecords, ParseRecord, PlainRecords, WireRecords;
    var data := Marshal(m);
    MarshalSections(m);
    MarshalHeaderReads(m, data);
    QuestionsParse(data, m.questions, |m.questions|);
  }

  /** Marshalling a plain message and parsing the bytes gives back its
      header, raw names, types, classes, TTLs and RDATA, consuming every
      byte; the question's text name is its labels joined by dots. */
  lemma {:induction false} MarshalThenParse(m: Message)
    requires PlainMessage(m)
    ensures var r := ParseMessageAt(Marshal(m));
            r.Ok? && WireMessage(r.value.message) == WireMessage(m) && r.value.next == |Marshal(m)|
    ensures var r := ParseMessageAt(Marshal(m));
            r.Ok? && |m.questions| == 1 ==>
              |r.value.message.questions| == 1
              && r.value.message.questions[0].parsedName == DottedName(PlainLabels(m.questions[0].name).value)
  {
    hide Marshal, MarshalRecords, MarshalRecord, MarshalQuestions, MarshalHeader, ParseRecords, ParseRecord,
         ParseQuestions, ParseQuestion, PlainRecords, WireRecords, WireQuestions, LayoutOf, ParsedHeader,
         PlainLabels, DottedName, PlainQuestion;
    var data, l := Marshal(m), LayoutOf(m);
    HeaderAndQuestionParse(m);
    AnswersParse(m);
    AuthoritiesParse(m);
    AdditionalsParse(m);
    MarshalSections(m);
    var qs := ParseQuestions(data, |m.questions|).value;
    var ans := ParseRecords(data, l.answers, |m.answers|).value;
    var auth := ParseRecords(data, l.authorities, |m.authorities|).value;
    var add := ParseRecords(data, l.additionals, |m.additionals|).value;
    var p := Message(m.header, qs.questions, ans.records, auth.records, add.records);
    assert ParseMessageAt(data) == Ok(MessageAt(p, l.end));
  }
}
