/** One request name and one reply, octet by octet. */
module DnsExample {
  import DnsAddress
  import opened DnsDecode
  import opened DnsLayout
  import opened DnsMessage
  import opened DnsNames

  const WWW: Bytes := [0x77, 0x77, 0x77]
  const BAIDU: Bytes := [0x62, 0x61, 0x69, 0x64, 0x75]
  const COM: Bytes := [0x63, 0x6F, 0x6D]

  /** www.baidu.com, the hostname of the program's own call. */
  const HOSTNAME: Bytes := [0x77, 0x77, 0x77, 0x2E, 0x62, 0x61, 0x69, 0x64, 0x75, 0x2E, 0x63, 0x6F, 0x6D]

  const WIRE_NAME: Bytes :=
    [3, 0x77, 0x77, 0x77, 5, 0x62, 0x61, 0x69, 0x64, 0x75, 3, 0x63, 0x6F, 0x6D, 0]

  lemma ThreeTokens(a: Bytes, b: Bytes, c: Bytes)
    requires a != [] && b != [] && c != [] && DOT !in a && DOT !in b && DOT !in c
    ensures Tokens(a + [DOT] + (b + [DOT] + c)) == [a, b, c]
  {
    TokensTake(a, b + [DOT] + c);
    TokensTake(b, c);
    TokensTake(c, []);
  }

  lemma ThreeEncoded(a: Bytes, b: Bytes, c: Bytes)
    requires |a| < 256 && |b| < 256 && |c| < 256
    ensures Written([a, b, c]) == [|a|] + a + ([|b|] + b + ([|c|] + c)) + [0]
  {
    var one, none: Labels := [c], [];
    var two, three: Labels := [b, c], [a, b, c];
    assert one[1..] == none && two[1..] == one && three[1..] == two;
    assert Encode(none) == [] && Encode(one) == [|c|] + c + [];
    assert Encode(one) == [|c|] + c;
    assert Encode(two) == [|b|] + b + Encode(one);
    assert Encode(three) == [|a|] + a + Encode(two);
  }

  /** A name of three labels in text and on the wire. */
  lemma ThreeOnTheWire(a: Bytes, b: Bytes, c: Bytes, text: Bytes, wire: Bytes)
    requires a != [] && b != [] && c != [] && DOT !in a && DOT !in b && DOT !in c
    requires |a| < 256 && |b| < 256 && |c| < 256
    requires text == a + [DOT] + (b + [DOT] + c)
    requires wire == [|a|] + a + ([|b|] + b + ([|c|] + c)) + [0]
    ensures Written(Tokens(text)) == wire
  {
    ThreeTokens(a, b, c);
    ThreeEncoded(a, b, c);
  }

  /** The octets the encoder writes for it. */
  lemma HostnameOnTheWire()
    ensures Written(Tokens(HOSTNAME)) == WIRE_NAME
  {
    ThreeOnTheWire(WWW, BAIDU, COM, HOSTNAME, WIRE_NAME);
  }

  const A: Bytes := [0x61]
  const B: Bytes := [0x62]

  const HEADER_OCTETS: Bytes := [0x12, 0x34, 0x81, 0x80, 0, 1, 0, 2, 0, 0, 0, 0]
  const QUESTION_OCTETS: Bytes := [1, 0x61, 0, 0, 1, 0, 1]
  /** For the name at offset 12: type 5, class 1, TTL 0x00020003, and four octets of data, "b" and a pointer. */
  const ALIAS_OCTETS: Bytes := [0xC0, 12, 0, 5, 0, 1, 0, 2, 0, 3, 0, 4, 1, 0x62, 0xC0, 12]
  /** For the same name: type 1, class 1, TTL 0x00015180, and the address 127.0.0.1. */
  const ADDRESS_OCTETS: Bytes := [0xC0, 12, 0, 1, 0, 1, 0, 1, 0x51, 0x80, 0, 4, 127, 0, 0, 1]

  /** A reply to "a": an alias to "b.a" and an address, and something behind the answers. */
  const REPLY: Bytes := HEADER_OCTETS + QUESTION_OCTETS + ALIAS_OCTETS + ADDRESS_OCTETS + [0xFF]

  const REPLY_HEADER := Header(0x1234, 0x8180, 1, 2, 0, 0)
  const ASKED := Question([A], 1, 1)
  const ALIAS := Resource(12, 5, 1, 0x0002_0003, [1, 0x62, 0xC0, 12])
  const ADDRESS := Resource(12, 1, 1, 0x0001_5180, [127, 0, 0, 1])

  lemma HeaderLiteral()
    ensures WireHeader(REPLY_HEADER) == HEADER_OCTETS
  {
  }

  lemma QuestionLiteral()
    ensures WireQuestions([ASKED]) == QUESTION_OCTETS
  {
    var qs, labels, none: Labels := [ASKED], [A], [];
    assert qs[1..] == [] && labels[1..] == none && Encode(none) == [];
    assert Encode(labels) == [1, 0x61];
    assert WireQuestion(ASKED) == QUESTION_OCTETS;
  }

  lemma RecordLiterals()
    ensures WireResource(ALIAS) == ALIAS_OCTETS && WireResource(ADDRESS) == ADDRESS_OCTETS
  {
  }

  lemma RecordsLiteral()
    ensures WireResources([ALIAS, ADDRESS]) == ALIAS_OCTETS + ADDRESS_OCTETS
  {
    RecordLiterals();
    var both, one, none: seq<Resource> := [ALIAS, ADDRESS], [ALIAS], [];
    assert both[..1] == one && one[..0] == none;
    assert WireResources(none) == [];
    assert WireResources(one) == ALIAS_OCTETS;
  }

  lemma ReplySerialised(m: Bytes)
    requires m == REPLY
    ensures Serialised(m, REPLY_HEADER, [ASKED], [ALIAS, ADDRESS])
  {
    HeaderLiteral();
    QuestionLiteral();
    RecordsLiteral();
    SerialisedExactly(m, REPLY_HEADER, [ASKED], [ALIAS, ADDRESS]);
    ReplyPrefix();
  }

  lemma ReplyOffsets()
    ensures AnswersStart([ASKED]) == 19 && AnswersEnd([ASKED], [ALIAS, ADDRESS]) == 51
  {
    QuestionLiteral();
    RecordsLiteral();
  }

  lemma ReplyPrefix()
    ensures HEADER_OCTETS + (QUESTION_OCTETS + (ALIAS_OCTETS + ADDRESS_OCTETS)) <= REPLY
  {
    assert REPLY == HEADER_OCTETS + (QUESTION_OCTETS + (ALIAS_OCTETS + ADDRESS_OCTETS)) + [0xFF];
  }

  lemma ReplyNames()
    ensures Join([A]) == A && Join(AliasLabels(Compressed([B]), [A])) == [0x62, 0x2E, 0x61]
  {
    var two: Labels := [B] + [A];
    assert two[1..] == [A];
  }

  lemma AddressText()
    ensures DnsAddress.DottedQuad([127, 0, 0, 1]) == [0x31, 0x32, 0x37, 0x2E, 0x30, 0x2E, 0x30, 0x2E, 0x31]
  {
    var d := DnsAddress.Decimals([127, 0, 0, 1]);
    assert d[3] == [0x31] && d[2] == [0x30] && d[1] == [0x30] && d[0] == [0x31, 0x32, 0x37];
    assert d[3..] == [d[3]] && d[2..][1..] == d[3..] && d[1..][1..] == d[2..];
    assert Join(d[2..]) == [0x30, 0x2E, 0x31];
    assert Join(d[1..]) == [0x30, 0x2E, 0x30, 0x2E, 0x31];
  }

  lemma RecordsAreUsual()
    ensures AllUsual([ALIAS, ADDRESS], [Compressed([B]), Full([])])
  {
    var labels, none: Labels := [B], [];
    assert labels[1..] == none && Encode(none) == [];
    assert Encode(labels) == [1, 0x62];
    assert WireAlias(Compressed(labels)) == [1, 0x62, 0xC0, 12];
  }

  lemma ReplyIsUsual(m: Bytes)
    requires Serialised(m, REPLY_HEADER, [ASKED], [ALIAS, ADDRESS])
    ensures LaidOut(m, REPLY_HEADER, [ASKED], [ALIAS, ADDRESS])
    ensures Answered(m, AnswersStart([ASKED]), [A], [ALIAS, ADDRESS], [Compressed([B]), Full([])])
  {
    RecordsAreUsual();
    UsualReply(m, REPLY_HEADER, ASKED, [ALIAS, ADDRESS], [Compressed([B]), Full([])]);
  }

  /** What the two records mean, and that the answers are read in reverse order. */
  lemma ReplyMeans(m: Bytes, answers: seq<Answer>)
    requires AllProper(m, 19, [ALIAS, ADDRESS]) && Delivers(m, 19, [ALIAS, ADDRESS], answers)
    requires Answered(m, 19, [A], [ALIAS, ADDRESS], [Compressed([B]), Full([])])
    ensures answers == [
      Answer([0x61], 1, 1, 1, 4, Address([0x31, 0x32, 0x37, 0x2E, 0x30, 0x2E, 0x30, 0x2E, 0x31])),
      Answer([0x61], 5, 1, 2, 4, Cname([0x62, 0x2E, 0x61]))]
  {
    ReplyNames();
    AddressText();
    var rs := [ALIAS, ADDRESS];
    assert rs[0] == ALIAS && rs[1] == ADDRESS;
    assert answers[1] == Expected(m, Offset(19, rs, 0), ALIAS);
    assert answers[0] == Expected(m, Offset(19, rs, 1), ADDRESS);
  }

  /** All names fit; the address does not. */
  lemma ReplyFits(m: Bytes)
    requires AllProper(m, 19, [ALIAS, ADDRESS])
    requires Answered(m, 19, [A], [ALIAS, ADDRESS], [Compressed([B]), Full([])])
    ensures AllShort(m, 19, [ALIAS, ADDRESS]) && !NoAddress([ALIAS, ADDRESS])
  {
    ReplyNames();
    var rs := [ALIAS, ADDRESS];
    assert rs[0] == ALIAS && rs[1] == ADDRESS;
    assert HoldsAddress(rs[1]);
    assert Expected(m, Offset(19, rs, 0), ALIAS).name == A;
    assert Expected(m, Offset(19, rs, 1), ADDRESS).name == A;
  }

  /** The parser on that reply. */
  method ParseReply(response: array<byte>, before: DnsAnswer)
    returns (ok: bool, inside: bool, ret: int, after: DnsAnswer, cursor: nat)
    requires response[..] == REPLY
    ensures ok && !inside && ret == 0 && cursor == 51
    ensures after == DnsAnswer(Header(0x1234, 0x8180, 1, 2, 0, 0), [
      Answer([0x61], 1, 1, 1, 4, Address([0x31, 0x32, 0x37, 0x2E, 0x30, 0x2E, 0x30, 0x2E, 0x31])),
      Answer([0x61], 5, 1, 2, 4, Cname([0x62, 0x2E, 0x61]))])
  {
    ReplySerialised(response[..]);
    ReplyOffsets();
    ReplyIsUsual(response[..]);
    ReplyFits(response[..]);
    ok, inside, ret, after, cursor :=
      ParseMessage(response, before, REPLY_HEADER, [ASKED], [ALIAS, ADDRESS]);
    ReplyMeans(response[..], after.body);
  }
}
