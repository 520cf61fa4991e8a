/** The wire layout of a response, section 4.1 of RFC 1035, and that the parser inverts it. */
module DnsLayout {
  import opened DnsAddress
  import opened DnsNames
  import opened DnsDecode
  import opened DnsMessage

  type word32 = x: int | 0 <= x < 0x1_0000_0000

  datatype Question = Question(labels: Labels, qType: word16, qClass: word16)

  /** A resource record whose owner name is a two-octet pointer to offset `owner`. */
  datatype Resource = Resource(owner: byte, qType: word16, qClass: word16, ttl: word32, rdata: Bytes)

  function WireQuestion(q: Question): Bytes {
    Encode(q.labels) + [0] + (Wire16(q.qType) + Wire16(q.qClass))
  }

  function WireQuestions(qs: seq<Question>): Bytes {
    if qs == [] then [] else WireQuestion(qs[0]) + WireQuestions(qs[1..])
  }

  /** The upper half of a 32-bit field. */
  function High16(v: word32): word16 {
    v / 0x10000
  }

  function Low16(v: word32): word16 {
    v % 0x10000
  }

  predicate Sized(r: Resource) {
    |r.rdata| < 0x10000
  }

  function WireResource(r: Resource): (w: Bytes)
    requires Sized(r)
    ensures |w| == 12 + |r.rdata|
  {
    [0xC0, r.owner] + AfterOwner(r)
  }

  /** Type, class, the two halves of the TTL, the data length, the data. */
  function AfterOwner(r: Resource): (w: Bytes)
    requires Sized(r)
    ensures |w| == 10 + |r.rdata|
  {
    Wire16(r.qType) + (Wire16(r.qClass) + (Wire16(High16(r.ttl)) + (Wire16(Low16(r.ttl))
    + (Wire16(|r.rdata|) + r.rdata))))
  }

  function WireResources(rs: seq<Resource>): Bytes
    requires forall r :: r in rs ==> Sized(r)
  {
    if rs == [] then [] else WireResources(rs[..|rs| - 1]) + WireResource(rs[|rs| - 1])
  }

  /** A response: header, questions, answer records. */
  function Message(h: Header, qs: seq<Question>, rs: seq<Resource>): Bytes
    requires forall r :: r in rs ==> Sized(r)
  {
    WireHeader(h) + (WireQuestions(qs) + WireResources(rs))
  }

  /** A name the decoder reads as the standard means it. */
  predicate Readable(m: Bytes, p: nat) {
    && WellFormed(Rfc, m, p, p) && NearPointers(m, p, p)
    && WellFormed(Code, m, p, p) && !Dangling(Code, m, p, p)
  }

  /**
   The record at offset `p` of `m` is proper: its owner pointer leads back to a readable name, and
   canonical-name data is a readable name.
   */
  predicate Proper(m: Bytes, p: nat, r: Resource) {
    Sized(r) && r.owner < p && Readable(m, r.owner) && (r.qType == CNAME ==> Readable(m, p + 12))
  }

  /** Its names fit the buffers the parser allocates. */
  predicate Short(m: Bytes, p: nat, r: Resource)
    requires Proper(m, p, r)
  {
    && |NameText(m, r.owner)| <= NAME_BUFFER
    && (r.qType == CNAME ==> |NameText(m, p + 12)| <= DATA_BUFFER)
  }

  lemma ShortMeans(m: Bytes, p: nat, r: Resource)
    requires Proper(m, p, r)
    ensures r.qType == 5 ==> Readable(m, p + 12)
    ensures Short(m, p, r) <==>
      |NameText(m, r.owner)| <= 128 && (r.qType == 5 ==> |NameText(m, p + 12)| <= 255)
  {
  }

  /** Its names keep the limit of 255 octets of section 2.3.4 of RFC 1035. */
  predicate Limited(m: Bytes, p: nat, r: Resource)
    requires Proper(m, p, r)
  {
    && WireLength(LabelsAt(Rfc, m, r.owner, r.owner)) <= 255
    && (r.qType == CNAME ==> WireLength(LabelsAt(Rfc, m, p + 12, p + 12)) <= 255)
  }

  /** Then the data buffer always suffices, and only the name buffer can be too small. */
  lemma DataAlwaysFits(m: Bytes, p: nat, r: Resource)
    requires Proper(m, p, r) && Limited(m, p, r)
    ensures Short(m, p, r) <==> |NameText(m, r.owner)| <= NAME_BUFFER
  {
    if r.qType == CNAME {
      DataBufferSuffices(m, p + 12);
      DecodedIsName(m, p + 12);
    }
  }

  /** A record whose data is turned into address text. */
  predicate HoldsAddress(r: Resource) {
    r.qType == HOST && |r.rdata| == 4
  }

  /** What the parser should deliver for the record at `p`: of the TTL only the upper half. */
  function Expected(m: Bytes, p: nat, r: Resource): Answer
    requires Proper(m, p, r)
  {
    Answer(NameText(m, r.owner), r.qType, r.qClass, High16(r.ttl), |r.rdata|,
           if r.qType == CNAME then Cname(NameText(m, p + 12))
           else if HoldsAddress(r) then Address(DottedQuad(r.rdata))
           else Nothing)
  }

  // ------------------------------------------------------------------ readable names

  lemma ReadableText(m: Bytes, p: nat)
    requires Readable(m, p)
    ensures DecodedText(m, p, p) == NameText(m, p)
  {
    DecodedIsName(m, p);
  }

  lemma {:induction false} EncodedIsNear(m: Bytes, p: nat, labels: Labels, start: nat)
    requires Encodable(labels) && HasAt(m, p, Encode(labels) + [0])
    requires WellFormed(Rfc, m, p, start)
    ensures NearPointers(m, p, start)
    decreases |labels|
  {
    EncodedAt(m, p, labels);
    if labels != [] {
      var l := labels[0];
      assert l in labels;
      LengthOctetIsLabel(|l|);
      EncodedIsNear(m, p + 1 + |l|, labels[1..], start);
    }
  }

  lemma {:induction false} CompressedIsNear(m: Bytes, p: nat, labels: Labels, t: byte, start: nat)
    requires Encodable(labels) && HasAt(m, p, Encode(labels) + [0xC0, t])
    requires WellFormed(Rfc, m, p, start) && WellFormed(Rfc, m, t, t) && NearPointers(m, t, t)
    ensures NearPointers(m, p, start)
    decreases |labels|
  {
    var pointer: Bytes := [0xC0, t];
    assert pointer[0] == 0xC0 && pointer[1] == t;
    EncodedThen(m, p, labels, pointer);
    if labels == [] {
      PointerRange(0xC0);
    } else {
      var l := labels[0];
      assert l in labels;
      LengthOctetIsLabel(|l|);
      CompressedIsNear(m, p + 1 + |l|, labels[1..], t, start);
    }
  }

  /** A name written out in full, such as the one of a question, is readable. */
  lemma EncodedIsReadable(m: Bytes, p: nat, labels: Labels)
    requires Encodable(labels) && HasAt(m, p, Encode(labels) + [0])
    ensures Readable(m, p) && NameText(m, p) == Join(labels)
  {
    EncodedReadsBack(Rfc, m, p, labels, p);
    EncodedReadsBack(Code, m, p, labels, p);
    EncodedIsNear(m, p, labels, p);
  }

  /** So is a compressed name, unless it puts labels in front of the root. */
  lemma CompressedIsReadable(m: Bytes, p: nat, labels: Labels, t: byte)
    requires Encodable(labels) && HasAt(m, p, Encode(labels) + [0xC0, t])
    requires t < p && Readable(m, t) && (labels != [] ==> LabelsAt(Rfc, m, t, t) != [])
    ensures Readable(m, p) && NameText(m, p) == Join(labels + LabelsAt(Rfc, m, t, t))
  {
    CodeReadsRfc(m, t, t);
    CompressedReadsBack(Rfc, m, p, labels, t, p);
    CompressedReadsBack(Code, m, p, labels, t, p);
    CompressedIsNear(m, p, labels, t, p);
    NoLabels(Code, m, t, t);
  }

  // ------------------------------------------------------------------ one record

  /** The octets of the fixed part of a record, and its data. */
  predicate FieldsAt(m: Bytes, p: nat, r: Resource) {
    && p + 12 + |r.rdata| <= |m|
    && m[p] == 0xC0 && m[p + 1] == r.owner
    && Field(m, p + 2) == r.qType && Field(m, p + 4) == r.qClass
    && Field(m, p + 6) == High16(r.ttl) && Field(m, p + 10) == |r.rdata|
    && m[p + 12..p + 12 + |r.rdata|] == r.rdata
  }

  lemma FieldHasAt(m: Bytes, p: nat, v: word16, rest: Bytes)
    requires HasAt(m, p, Wire16(v) + rest)
    ensures p + 2 + |rest| <= |m| && Field(m, p) == v && HasAt(m, p + 2, rest)
  {
    HasAtConcat(m, p, Wire16(v), rest);
    assert Wire16(v)[0] == m[p] && Wire16(v)[1] == m[p + 1];
    FieldOfWire(m, p, v);
  }

  lemma RecordFields(m: Bytes, p: nat, r: Resource)
    requires Sized(r) && HasAt(m, p, WireResource(r))
    ensures FieldsAt(m, p, r) && HasAt(m, p + 12, r.rdata)
  {
    HasAtConcat(m, p, [0xC0, r.owner], AfterOwner(r));
    var two: Bytes := [0xC0, r.owner];
    assert two[0] == m[p] && two[1] == m[p + 1];
    var data := r.rdata;
    var length := Wire16(|data|) + data;
    var ttl := Wire16(High16(r.ttl)) + (Wire16(Low16(r.ttl)) + length);
    FieldHasAt(m, p + 2, r.qType, Wire16(r.qClass) + ttl);
    FieldHasAt(m, p + 4, r.qClass, ttl);
    FieldHasAt(m, p + 6, High16(r.ttl), Wire16(Low16(r.ttl)) + length);
    FieldHasAt(m, p + 8, Low16(r.ttl), length);
    FieldHasAt(m, p + 10, |data|, data);
    HasAtSlice(m, p + 12, data);
  }

  /** The owner pointer decodes to the name it leads to. */
  lemma OwnerName(m: Bytes, p: nat, owner: byte)
    requires p + 1 < |m| && m[p] == 0xC0 && m[p + 1] == owner && owner < p && Readable(m, owner)
    ensures WellFormed(Code, m, p, p) && DecodedText(m, p, p) == NameText(m, owner)
  {
    PointerRange(0xC0);
    PointerStep(m, p, p);
    ReadableText(m, owner);
  }

  lemma RecordReadsBack(m: Bytes, p: nat, r: Resource)
    requires FieldsAt(m, p, r) && Proper(m, p, r)
    ensures RecordOk(m, p) && AnswerAt(m, p) == Expected(m, p, r)
    ensures Fits(m, p) <==> Short(m, p, r)
    ensures Inside(m, p) <==> Short(m, p, r) && !HoldsAddress(r)
  {
    OwnerName(m, p, r.owner);
    if r.qType == CNAME {
      ReadableText(m, p + 12);
    }
    InsideExactly(m, p);
  }

  // ------------------------------------------------------------------ all records

  /** Where record `i` of the list starts, behind `first`. */
  function Offset(first: nat, rs: seq<Resource>, i: nat): nat
    requires i <= |rs| && forall r :: r in rs ==> Sized(r)
  {
    first + |WireResources(rs[..i])|
  }

  ghost predicate AllProper(m: Bytes, first: nat, rs: seq<Resource>) {
    && (forall r :: r in rs ==> Sized(r))
    && forall i: nat {:trigger Offset(first, rs, i)} :: i < |rs| ==> Proper(m, Offset(first, rs, i), rs[i])
  }

  lemma {:induction false} ResourceHasAt(m: Bytes, first: nat, rs: seq<Resource>, i: nat)
    requires i < |rs| && forall r :: r in rs ==> Sized(r)
    requires HasAt(m, first, WireResources(rs))
    ensures HasAt(m, Offset(first, rs, i), WireResource(rs[i]))
    decreases |rs|
  {
    var last := |rs| - 1;
    HasAtConcat(m, first, WireResources(rs[..last]), WireResource(rs[last]));
    if i < last {
      ResourceHasAt(m, first, rs[..last], i);
      assert rs[..last][..i] == rs[..i];
    }
  }

  /** The next record starts 12 octets and the data further. */
  lemma OffsetStep(first: nat, rs: seq<Resource>, i: nat)
    requires i < |rs| && forall r :: r in rs ==> Sized(r)
    ensures Offset(first, rs, i + 1) == Offset(first, rs, i) + 12 + |rs[i].rdata|
  {
    assert rs[..i + 1][..i] == rs[..i];
  }

  /** The cursor stands at each record in turn. */
  lemma {:induction false} CursorAtRecord(m: Bytes, first: nat, rs: seq<Resource>, i: nat)
    requires i <= |rs| && forall r :: r in rs ==> Sized(r)
    requires HasAt(m, first, WireResources(rs))
    ensures RecordStart(m, first, i) == Offset(first, rs, i)
  {
    if i > 0 {
      CursorAtRecord(m, first, rs, i - 1);
      ResourceHasAt(m, first, rs, i - 1);
      RecordFields(m, Offset(first, rs, i - 1), rs[i - 1]);
      OffsetStep(first, rs, i - 1);
    }
  }

  lemma OneReadsBack(m: Bytes, first: nat, rs: seq<Resource>, i: nat)
    requires AllProper(m, first, rs) && HasAt(m, first, WireResources(rs)) && i < |rs|
    ensures RecordOk(m, RecordStart(m, first, i))
    ensures AnswerAt(m, RecordStart(m, first, i)) == Expected(m, Offset(first, rs, i), rs[i])
    ensures Fits(m, RecordStart(m, first, i)) <==> Short(m, Offset(first, rs, i), rs[i])
    ensures Inside(m, RecordStart(m, first, i)) <==> Short(m, Offset(first, rs, i), rs[i]) && !HoldsAddress(rs[i])
  {
    CursorAtRecord(m, first, rs, i);
    var p := Offset(first, rs, i);
    ResourceHasAt(m, first, rs, i);
    RecordFields(m, p, rs[i]);
    RecordReadsBack(m, p, rs[i]);
  }

  lemma RecordsReadBack(m: Bytes, first: nat, rs: seq<Resource>)
    requires AllProper(m, first, rs) && HasAt(m, first, WireResources(rs))
    ensures RecordsOk(m, first, |rs|)
    ensures RecordStart(m, first, |rs|) == first + |WireResources(rs)|
  {
    forall i: nat | i < |rs|
      ensures RecordOk(m, RecordStart(m, first, i))
    {
      OneReadsBack(m, first, rs, i);
    }
    CursorAtRecord(m, first, rs, |rs|);
    assert rs[..|rs|] == rs;
  }

  // ------------------------------------------------------------------ questions

  predicate AskedProperly(qs: seq<Question>) {
    forall q :: q in qs ==> forall l :: l in q.labels ==> 0 < |l| < 256
  }

  lemma QuestionHasAt(m: Bytes, p: nat, q: Question)
    requires HasAt(m, p, WireQuestion(q)) && forall l :: l in q.labels ==> 0 < |l| < 256
    ensures Chain(m, p) && ChainEnd(m, p) + 4 == p + |WireQuestion(q)|
  {
    HasAtConcat(m, p, Encode(q.labels) + [0], Wire16(q.qType) + Wire16(q.qClass));
    ChainOfEncoded(m, p, q.labels);
  }

  lemma {:induction false} QuestionsReadBack(m: Bytes, p: nat, qs: seq<Question>)
    requires AskedProperly(qs) && HasAt(m, p, WireQuestions(qs))
    ensures QuestionsOk(m, p, |qs|) && QuestionsEnd(m, p, |qs|) == p + |WireQuestions(qs)|
    decreases |qs|
  {
    if qs != [] {
      var first, rest := WireQuestion(qs[0]), WireQuestions(qs[1..]);
      HasAtConcat(m, p, first, rest);
      QuestionHasAt(m, p, qs[0]);
      QuestionsReadBack(m, p + |first|, qs[1..]);
      QuestionsStep(m, p, p + |first|, |qs[1..]|);
    }
  }

  lemma QuestionsStep(m: Bytes, p: nat, next: nat, n: nat)
    requires Chain(m, p) && ChainEnd(m, p) + 4 == next && QuestionsOk(m, next, n)
    ensures QuestionsOk(m, p, n + 1) && QuestionsEnd(m, p, n + 1) == QuestionsEnd(m, next, n)
  {
  }

  // ------------------------------------------------------------------ the whole message

  /** Where the answers of a message with these questions start. */
  function AnswersStart(qs: seq<Question>): nat {
    HEADER + |WireQuestions(qs)|
  }

  /** Where they end; authority and additional records may follow, which the parser does not read. */
  function AnswersEnd(qs: seq<Question>, rs: seq<Resource>): nat
    requires forall r :: r in rs ==> Sized(r)
  {
    AnswersStart(qs) + |WireResources(rs)|
  }

  /** Header, questions and records stand one behind the other at the front of `m`. */
  predicate Serialised(m: Bytes, h: Header, qs: seq<Question>, rs: seq<Resource>)
    requires forall r :: r in rs ==> Sized(r)
  {
    && HasAt(m, 0, WireHeader(h)) && HasAt(m, HEADER, WireQuestions(qs))
    && HasAt(m, AnswersStart(qs), WireResources(rs))
  }

  /** That is, `m` starts with the message. */
  lemma SerialisedExactly(m: Bytes, h: Header, qs: seq<Question>, rs: seq<Resource>)
    requires forall r :: r in rs ==> Sized(r)
    ensures Serialised(m, h, qs, rs) <==> Message(h, qs, rs) <= m
  {
    var a, b, c := WireHeader(h), WireQuestions(qs), WireResources(rs);
    if Serialised(m, h, qs, rs) {
      PartsDetermine(m, a, b, c);
    }
    if Message(h, qs, rs) <= m {
      PartsOfPrefix(m, a, b, c);
    }
  }

  lemma PartsDetermine(m: Bytes, a: Bytes, b: Bytes, c: Bytes)
    requires HasAt(m, 0, a) && HasAt(m, |a|, b) && HasAt(m, |a| + |b|, c)
    ensures a + (b + c) <= m
  {
    HasAtSlice(m, 0, a);
    HasAtSlice(m, |a|, b);
    HasAtSlice(m, |a| + |b|, c);
    var n := |a| + |b| + |c|;
    assert m[..n] == m[..|a|] + (m[|a|..|a| + |b|] + m[|a| + |b|..n]);
  }

  lemma PartsOfPrefix(m: Bytes, a: Bytes, b: Bytes, c: Bytes)
    requires a + (b + c) <= m
    ensures HasAt(m, 0, a) && HasAt(m, |a|, b) && HasAt(m, |a| + |b|, c)
  {
    ThreeParts(a, b, c);
    var w := a + (b + c);
    assert forall k :: 0 <= k < |w| ==> m[k] == w[k];
    assert HasAt(m, 0, w);
    HasAtConcat(m, 0, a, b + c);
    HasAtConcat(m, |a|, b, c);
  }

  /** `m` is a response without error code, with honest counts, askable questions and proper records. */
  ghost predicate LaidOut(m: Bytes, h: Header, qs: seq<Question>, rs: seq<Resource>) {
    && (forall r :: r in rs ==> Sized(r))
    && Serialised(m, h, qs, rs)
    && h.flags % 16 == 0 && h.questions == |qs| && h.answer == |rs|
    && AskedProperly(qs) && AllProper(m, AnswersStart(qs), rs)
  }

  /** The parser's precondition holds, it reads the same header, and its cursor ends behind the answers. */
  lemma ParserAccepts(m: Bytes, h: Header, qs: seq<Question>, rs: seq<Resource>)
    requires LaidOut(m, h, qs, rs)
    ensures LayoutOk(m) && HeaderAt(m) == h
    ensures QuestionsOk(m, HEADER, |qs|) && QuestionsEnd(m, HEADER, |qs|) == AnswersStart(qs)
    ensures RecordsOk(m, AnswersStart(qs), |rs|) && RecordStart(m, AnswersStart(qs), |rs|) == AnswersEnd(qs, rs)
  {
    QuestionsAccepted(m, h, qs, rs);
    RecordsAccepted(m, h, qs, rs);
    LayoutFrom(m, |qs|, |rs|);
  }

  lemma QuestionsAccepted(m: Bytes, h: Header, qs: seq<Question>, rs: seq<Resource>)
    requires LaidOut(m, h, qs, rs)
    ensures |m| >= HEADER && HeaderAt(m) == h
    ensures QuestionsOk(m, HEADER, |qs|) && QuestionsEnd(m, HEADER, |qs|) == AnswersStart(qs)
  {
    HeaderReadsBack(h, m);
    QuestionsReadBack(m, HEADER, qs);
  }

  lemma RecordsAccepted(m: Bytes, h: Header, qs: seq<Question>, rs: seq<Resource>)
    requires LaidOut(m, h, qs, rs)
    ensures RecordsOk(m, AnswersStart(qs), |rs|) && RecordStart(m, AnswersStart(qs), |rs|) == AnswersEnd(qs, rs)
  {
    RecordsReadBack(m, AnswersStart(qs), rs);
  }

  lemma LayoutFrom(m: Bytes, q: nat, n: nat)
    requires |m| >= HEADER && HeaderAt(m).questions == q && HeaderAt(m).answer == n
    requires QuestionsOk(m, HEADER, q) && RecordsOk(m, QuestionsEnd(m, HEADER, q), n)
    ensures LayoutOk(m)
  {
  }

  /** `answers` are what should be delivered for `rs`, last record first. */
  ghost predicate Delivers(m: Bytes, first: nat, rs: seq<Resource>, answers: seq<Answer>)
    requires AllProper(m, first, rs)
  {
    && |answers| == |rs|
    && forall i: nat {:trigger rs[i]} :: i < |rs| ==> answers[|rs| - 1 - i] == Expected(m, Offset(first, rs, i), rs[i])
  }

  lemma AnswersDelivered(m: Bytes, first: nat, rs: seq<Resource>, all: seq<Answer>,
                         fits: seq<bool>, insides: seq<bool>)
    requires AllProper(m, first, rs) && HasAt(m, first, WireResources(rs))
    requires Reads(m, first, |rs|, all, fits, insides)
    ensures Delivers(m, first, rs, Reversed(all))
  {
    forall i: nat | i < |rs|
      ensures Reversed(all)[|rs| - 1 - i] == Expected(m, Offset(first, rs, i), rs[i])
    {
      OneDelivered(m, first, rs, all, fits, insides, i);
    }
  }

  lemma OneDelivered(m: Bytes, first: nat, rs: seq<Resource>, all: seq<Answer>,
                     fits: seq<bool>, insides: seq<bool>, i: nat)
    requires AllProper(m, first, rs) && HasAt(m, first, WireResources(rs)) && i < |rs|
    requires Reads(m, first, |rs|, all, fits, insides)
    ensures all[i] == Expected(m, Offset(first, rs, i), rs[i])
  {
    assert Turn(i);
    OneReadsBack(m, first, rs, i);
  }

  /** Parsing inverts serialisation: the answers are the expected ones, in reverse order. */
  lemma ParseInvertsLayout(m: Bytes, h: Header, qs: seq<Question>, rs: seq<Resource>)
    requires LaidOut(m, h, qs, rs)
    ensures RecordsOk(m, AnswersStart(qs), |rs|)
    ensures Delivers(m, AnswersStart(qs), rs, Reversed(AnswersAt(m, AnswersStart(qs), |rs|)))
  {
    var first, n := AnswersStart(qs), |rs|;
    RecordsReadBack(m, first, rs);
    AnswersRead(m, first, n);
    AnswersDelivered(m, first, rs, AnswersAt(m, first, n), FitsAt(m, first, n), InsideAt(m, first, n));
  }

  // ------------------------------------------------------------------ what fits

  /** Every record's names fit the parser's buffers. */
  ghost predicate AllShort(m: Bytes, first: nat, rs: seq<Resource>)
    requires AllProper(m, first, rs)
  {
    forall i: nat {:trigger rs[i]} :: i < |rs| ==> Short(m, Offset(first, rs, i), rs[i])
  }

  predicate NoAddress(rs: seq<Resource>) {
    forall i: nat :: i < |rs| ==> !HoldsAddress(rs[i])
  }

  lemma FitsExactly(m: Bytes, first: nat, rs: seq<Resource>)
    requires AllProper(m, first, rs) && HasAt(m, first, WireResources(rs)) && RecordsOk(m, first, |rs|)
    ensures AllFit(m, first, |rs|) <==> AllShort(m, first, rs)
  {
    forall i: nat | i < |rs|
      ensures Fits(m, RecordStart(m, first, i)) <==> Short(m, Offset(first, rs, i), rs[i])
    {
      OneReadsBack(m, first, rs, i);
    }
  }

  lemma AllInsideExactly(m: Bytes, first: nat, rs: seq<Resource>)
    requires AllProper(m, first, rs) && HasAt(m, first, WireResources(rs)) && RecordsOk(m, first, |rs|)
    ensures AllInside(m, first, |rs|) <==> AllShort(m, first, rs) && NoAddress(rs)
  {
    forall i: nat | i < |rs|
      ensures Inside(m, RecordStart(m, first, i)) <==> Short(m, Offset(first, rs, i), rs[i]) && !HoldsAddress(rs[i])
    {
      OneReadsBack(m, first, rs, i);
    }
  }

  /**
   The parser itself, on a message laid out that way: its name decoder stays inside the buffers if and
   only if every name fits, and then it delivers the answers; every write stays inside if and only if,
   besides, no record holds an address.
   */
  method ParseMessage(response: array<byte>, before: DnsAnswer,
                      ghost h: Header, ghost qs: seq<Question>, ghost rs: seq<Resource>)
    returns (ok: bool, inside: bool, ret: int, after: DnsAnswer, cursor: nat)
    requires LaidOut(response[..], h, qs, rs)
    ensures ok <==> AllShort(response[..], AnswersStart(qs), rs)
    ensures inside <==> AllShort(response[..], AnswersStart(qs), rs) && NoAddress(rs)
    ensures ok ==> ret == 0 && after.header == h && cursor == AnswersEnd(qs, rs)
    ensures ok ==> Delivers(response[..], AnswersStart(qs), rs, after.body)
  {
    ParserAccepts(response[..], h, qs, rs);
    ParseInvertsLayout(response[..], h, qs, rs);
    FitsExactly(response[..], AnswersStart(qs), rs);
    AllInsideExactly(response[..], AnswersStart(qs), rs);
    ok, inside, ret, after, cursor := ParseResponse(response, before);
  }

  ghost predicate AllLimited(m: Bytes, first: nat, rs: seq<Resource>)
    requires AllProper(m, first, rs)
  {
    forall i: nat {:trigger Offset(first, rs, i)} :: i < |rs| ==> Limited(m, Offset(first, rs, i), rs[i])
  }

  ghost predicate AllOwnersFit(m: Bytes, first: nat, rs: seq<Resource>)
    requires AllProper(m, first, rs)
  {
    forall i: nat {:trigger Offset(first, rs, i)} :: i < |rs| ==>
      Proper(m, Offset(first, rs, i), rs[i]) && |NameText(m, rs[i].owner)| <= 128
  }

  /**
   For names within the limit, the decoder leaves a buffer exactly when an owner name has more than
   128 octets, and the parser exactly when, besides, some record holds an address.
   */
  lemma OverrunsExactlyWhen(m: Bytes, h: Header, qs: seq<Question>, rs: seq<Resource>)
    requires LaidOut(m, h, qs, rs) && AllLimited(m, AnswersStart(qs), rs)
    ensures RecordsOk(m, AnswersStart(qs), |rs|)
    ensures AllFit(m, AnswersStart(qs), |rs|) <==> AllOwnersFit(m, AnswersStart(qs), rs)
    ensures AllInside(m, AnswersStart(qs), |rs|) <==> AllOwnersFit(m, AnswersStart(qs), rs) && NoAddress(rs)
  {
    var first := AnswersStart(qs);
    RecordsReadBack(m, first, rs);
    FitsExactly(m, first, rs);
    AllInsideExactly(m, first, rs);
    ShortExactly(m, first, rs);
  }

  lemma ShortExactly(m: Bytes, first: nat, rs: seq<Resource>)
    requires AllProper(m, first, rs) && AllLimited(m, first, rs)
    ensures AllShort(m, first, rs) <==> AllOwnersFit(m, first, rs)
  {
    forall i: nat | i < |rs|
      ensures Short(m, Offset(first, rs, i), rs[i]) <==> |NameText(m, rs[i].owner)| <= NAME_BUFFER
    {
      DataAlwaysFits(m, Offset(first, rs, i), rs[i]);
    }
  }

  // ------------------------------------------------------------------ owner names that are no pointer

  /** Where the name at `p` ends: behind its zero octet, or behind the second octet of a pointer. */
  function NameEnd(v: Reader, m: Bytes, p: nat, start: nat): (r: nat)
    requires WellFormed(v, m, p, start)
    ensures p < r
    decreases |m| - p
  {
    if m[p] == 0 then p + 1
    else if IsPointer(m[p]) then p + 2
    else NameEnd(v, m, p + 1 + m[p], start)
  }

  /** The parser continues two octets behind the start of an owner name: rightly if and only if it is a bare pointer. */
  lemma CursorRightExactlyWhen(v: Reader, m: Bytes, p: nat)
    requires WellFormed(v, m, p, p)
    ensures NameEnd(v, m, p, p) == p + 2 <==> IsPointer(m[p])
  {
    if m[p] != 0 && !IsPointer(m[p]) {
      assert NameEnd(v, m, p + 1 + m[p], p) > p + 1 + m[p];
    }
  }

  /**
   A record with the owner name "a" written in full, type 1, class 1 and the address 127.0.0.1: the
   parser reads type 0, class 256 and no data, and its next record would start inside this one.
   */
  lemma FullOwnerIsMisread() returns (m: Bytes)
    ensures WellFormed(Rfc, m, 0, 0) && NameText(m, 0) == [0x61] && NameEnd(Rfc, m, 0, 0) == 3
    ensures |m| == 17 && Field(m, 3) == HOST && Field(m, 11) == 4 && m[13..] == [127, 0, 0, 1]
    ensures RecordOk(m, 0) && !IsAddress(m, 0)
    ensures AnswerAt(m, 0) == Answer([0x61], 0, 256, 256, 0, Nothing) && RecordEnd(m, 0) == 12 < |m|
  {
    m := [1, 0x61, 0, 0, 1, 0, 1, 0, 0, 0, 0, 0, 4, 127, 0, 0, 1];
    NameA(Rfc, m);
    NameA(Code, m);
    assert DecodedText(m, 0, 0) == [0x61] by {
      var text: Bytes := [0x61];
      assert text + [] == text;
    }
  }

  /** The name "a" at the front of a message. */
  lemma NameA(v: Reader, m: Bytes)
    requires |m| >= 3 && m[0] == 1 && m[1] == 0x61 && m[2] == 0
    ensures WellFormed(v, m, 0, 0) && Join(LabelsAt(v, m, 0, 0)) == [0x61]
    ensures !Dangling(v, m, 0, 0) && NameEnd(v, m, 0, 0) == 3
  {
    PointerRange(1);
    RootCase(v, m, 2, 0);
    LabelCase(v, m, 0, 2, 0);
    assert m[1..2] == [0x61];
    var one: Labels := [[0x61]];
    assert LabelsAt(v, m, 0, 0) == one;
    assert NameEnd(v, m, 2, 0) == 3;
  }

  // ------------------------------------------------------------------ the usual reply

  /** A canonical name as data: in full, or labels and a pointer to the name in the question. */
  datatype Alias = Full(labels: Labels) | Compressed(labels: Labels)

  function WireAlias(a: Alias): Bytes {
    Encode(a.labels) + if a.Full? then [0] else [0xC0, HEADER]
  }

  /** What it stands for in a reply to a question about `asked`. */
  function AliasLabels(a: Alias, asked: Labels): Labels {
    a.labels + if a.Full? then [] else asked
  }

  /** A record of the reply: its owner is the name in the question, and canonical-name data is `a`. */
  predicate Usual(r: Resource, a: Alias) {
    Sized(r) && r.owner == HEADER && (r.qType == CNAME ==> Encodable(a.labels) && r.rdata == WireAlias(a))
  }

  lemma AliasIsReadable(m: Bytes, p: nat, a: Alias, asked: Labels)
    requires HasAt(m, p, WireAlias(a)) && Encodable(a.labels) && p > HEADER
    requires asked != [] && Readable(m, HEADER) && LabelsAt(Rfc, m, HEADER, HEADER) == asked
    ensures Readable(m, p) && NameText(m, p) == Join(AliasLabels(a, asked))
  {
    if a.Full? {
      EncodedIsReadable(m, p, a.labels);
      assert a.labels + [] == a.labels;
    } else {
      CompressedIsReadable(m, p, a.labels, HEADER);
    }
  }

  lemma DataHasAt(m: Bytes, p: nat, r: Resource)
    requires Sized(r) && HasAt(m, p, WireResource(r))
    ensures HasAt(m, p + 12, r.rdata)
  {
    RecordFields(m, p, r);
  }

  lemma UsualAlias(m: Bytes, p: nat, asked: Labels, r: Resource, a: Alias)
    requires Usual(r, a) && r.qType == CNAME && HasAt(m, p, WireResource(r)) && p > HEADER
    requires asked != [] && Readable(m, HEADER) && LabelsAt(Rfc, m, HEADER, HEADER) == asked
    ensures Readable(m, p + 12) && NameText(m, p + 12) == Join(AliasLabels(a, asked))
  {
    DataHasAt(m, p, r);
    AliasIsReadable(m, p + 12, a, asked);
  }

  lemma UsualRecord(m: Bytes, p: nat, asked: Labels, r: Resource, a: Alias)
    requires Usual(r, a) && HasAt(m, p, WireResource(r)) && p > HEADER
    requires asked != [] && Readable(m, HEADER) && LabelsAt(Rfc, m, HEADER, HEADER) == asked
    ensures Proper(m, p, r) && Expected(m, p, r).name == Join(asked)
    ensures r.qType == CNAME ==> Expected(m, p, r).data == Cname(Join(AliasLabels(a, asked)))
  {
    if r.qType == CNAME {
      UsualAlias(m, p, asked, r, a);
    }
  }

  /**
   The usual reply to a question about a name other than the root: every record's owner pointer leads
   to that name, and aliases are written in full or compressed.  It is laid out as above, every
   answer gets the name, and aliases come back as their dotted text.
   */
  lemma UsualReply(m: Bytes, h: Header, q: Question, rs: seq<Resource>, aliases: seq<Alias>)
    requires h.flags % 16 == 0 && h.questions == 1 && h.answer == |rs|
    requires Encodable(q.labels) && q.labels != [] && AllUsual(rs, aliases) && Serialised(m, h, [q], rs)
    ensures LaidOut(m, h, [q], rs) && Readable(m, HEADER) && NameText(m, HEADER) == Join(q.labels)
    ensures Answered(m, AnswersStart([q]), q.labels, rs, aliases)
  {
    var first := AnswersStart([q]);
    QuestionName(m, q);
    forall i: nat | i < |rs|
      ensures var p := Offset(first, rs, i);
        && Proper(m, p, rs[i]) && Expected(m, p, rs[i]).name == Join(q.labels)
        && (rs[i].qType == CNAME ==> Expected(m, p, rs[i]).data == Cname(Join(AliasLabels(aliases[i], q.labels))))
    {
      ResourceHasAt(m, first, rs, i);
      UsualRecord(m, Offset(first, rs, i), q.labels, rs[i], aliases[i]);
    }
  }

  predicate AllUsual(rs: seq<Resource>, aliases: seq<Alias>) {
    && (forall r :: r in rs ==> Sized(r))
    && |aliases| == |rs| && forall i :: 0 <= i < |rs| ==> Usual(rs[i], aliases[i])
  }

  /** Every expected answer has the name asked for, and aliases as dotted text. */
  ghost predicate Answered(m: Bytes, first: nat, asked: Labels, rs: seq<Resource>, aliases: seq<Alias>)
    requires AllProper(m, first, rs) && |aliases| == |rs|
  {
    forall i: nat {:trigger rs[i]} :: i < |rs| ==>
      var answer := Expected(m, Offset(first, rs, i), rs[i]);
      && answer.name == Join(asked)
      && (rs[i].qType == CNAME ==> answer.data == Cname(Join(AliasLabels(aliases[i], asked))))
  }

  /** The name of the only question stands behind the header. */
  lemma QuestionName(m: Bytes, q: Question)
    requires HasAt(m, HEADER, WireQuestions([q])) && Encodable(q.labels)
    ensures Readable(m, HEADER) && LabelsAt(Rfc, m, HEADER, HEADER) == q.labels
    ensures NameText(m, HEADER) == Join(q.labels)
  {
    var qs := [q];
    assert qs[1..] == [];
    HasAtConcat(m, HEADER, WireQuestion(q), WireQuestions(qs[1..]));
    HasAtConcat(m, HEADER, Encode(q.labels) + [0], Wire16(q.qType) + Wire16(q.qClass));
    EncodedIsReadable(m, HEADER, q.labels);
    EncodedReadsBack(Rfc, m, HEADER, q.labels, HEADER);
  }

  /** A legal name on which the decoder leaves the name buffer: three labels of 63 octets. */
  lemma LongNameOverruns() returns (m: Bytes, h: Header, q: Question, r: Resource)
    ensures Legal(q.labels) && LaidOut(m, h, [q], [r]) && !HoldsAddress(r)
    ensures Readable(m, r.owner) && NameText(m, r.owner) == Join(q.labels)
    ensures RecordsOk(m, AnswersStart([q]), 1) && !AllFit(m, AnswersStart([q]), 1)
  {
    var l: Bytes := seq(63, _ => 0x61);
    q := Question([l, l, l], TXT, 1);
    r := Resource(HEADER, TXT, 1, 0, []);
    LongName(l);
    m, h := OneReply(q, r);
    RecordsReadBack(m, AnswersStart([q]), [r]);
    FitsExactly(m, AnswersStart([q]), [r]);
    assert [r][0] == r;
    assert !Short(m, Offset(AnswersStart([q]), [r], 0), [r][0]);
  }

  /** A type the parser does not read. */
  const TXT: word16 := 16

  /** The most ordinary reply, an address for "a": all names fit, and the address text leaves its buffer. */
  lemma AddressOverruns() returns (m: Bytes, h: Header, q: Question, r: Resource)
    ensures q.labels == [[0x61]] && r.rdata == [127, 0, 0, 1] && LaidOut(m, h, [q], [r])
    ensures AllLimited(m, AnswersStart([q]), [r]) && RecordsOk(m, AnswersStart([q]), 1)
    ensures AllFit(m, AnswersStart([q]), 1) && !AllInside(m, AnswersStart([q]), 1)
  {
    q := Question([[0x61]], HOST, 1);
    r := Resource(HEADER, HOST, 1, 0, [127, 0, 0, 1]);
    assert q.labels[1..] == [] && WireLength(q.labels) == 3 && Join(q.labels) == [0x61];
    m, h := OneReply(q, r);
    assert LabelsAt(Rfc, m, HEADER, HEADER) == q.labels;
    OverrunsExactlyWhen(m, h, [q], [r]);
    assert [r][0] == r && HoldsAddress([r][0]);
  }

  /** A reply to `q` of one record that is no alias. */
  lemma OneReply(q: Question, r: Resource) returns (m: Bytes, h: Header)
    requires Encodable(q.labels) && q.labels != [] && Sized(r) && r.owner == HEADER && r.qType != CNAME
    ensures LaidOut(m, h, [q], [r]) && Readable(m, HEADER)
    ensures LabelsAt(Rfc, m, HEADER, HEADER) == q.labels && NameText(m, HEADER) == Join(q.labels)
  {
    h := Header(0, 0x8000, 1, 1, 0, 0);
    m := Message(h, [q], [r]);
    SerialisedExactly(m, h, [q], [r]);
    UsualReply(m, h, q, [r], [Full([])]);
    QuestionName(m, q);
  }

  lemma LongName(l: Bytes)
    requires |l| == 63
    ensures Legal([l, l, l]) && |Join([l, l, l])| == 191
  {
    WireLengthCons(l, []);
    WireLengthCons(l, [l]);
    WireLengthCons(l, [l, l]);
    assert [l] + [] == [l] && [l] + [l] == [l, l] && [l] + [l, l] == [l, l, l];
    TextLength([l, l, l]);
  }

  lemma WireLengthCons(l: Bytes, rest: Labels)
    ensures WireLength([l] + rest) == 1 + |l| + WireLength(rest)
  {
    assert ([l] + rest)[1..] == rest;
  }
}
