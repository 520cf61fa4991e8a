/** DNS messages: header, request assembly, the response parser, and the layout it inverts. */
module DnsMessage {
  import opened Bits
  import opened DnsAddress
  import opened DnsNames
  import opened DnsDecode

  type word16 = x: int | 0 <= x < 0x10000

  // ------------------------------------------------------------------ 16-bit fields

  /** htons and ntohs on a little-endian host: swap the octets. */
  function Swap16(v: word16): word16 {
    v % 256 * 256 + v / 256
  }

  /** A field as it lies in memory, low octet first. */
  function Memory16(v: word16): Bytes {
    var high: byte, low: byte := v / 256, v % 256;
    [low, high]
  }

  /** Reading a field from memory. */
  function Load16(b0: byte, b1: byte): word16 {
    b0 + b1 * 256
  }

  /** A field in network order, high octet first. */
  function Wire16(v: word16): Bytes {
    var high: byte, low: byte := v / 256, v % 256;
    [high, low]
  }

  lemma MemoryOfSwapped(v: word16)
    ensures Memory16(Swap16(v)) == Wire16(v)
  {
  }

  function BigEndian(high: int, low: int): int {
    high * 256 + low
  }

  /** The field at `p` of a message: high octet first, section 2.3.2 of RFC 1035. */
  function Field(m: Bytes, p: nat): word16
    requires p + 2 <= |m|
  {
    BigEndian(m[p], m[p + 1])
  }

  /** ntohs of a loaded field is its value in network order. */
  lemma NtohsOfLoad(b0: byte, b1: byte)
    ensures Swap16(Load16(b0, b1)) == BigEndian(b0, b1)
  {
  }

  lemma FieldOfWire(m: Bytes, p: nat, v: word16)
    requires p + 2 <= |m| && m[p] == v / 256 && m[p + 1] == v % 256
    ensures Field(m, p) == v
  {
  }

  // ------------------------------------------------------------------ header

  datatype Header = Header(
    transactionId: word16, flags: word16, questions: word16, answer: word16, authority: word16, additional: word16)

  const HEADER := 12

  /** The fields as stored by dnsCreateHeader, each converted to network order. */
  function Stored(h: Header): Header {
    Header(Swap16(h.transactionId), Swap16(h.flags), Swap16(h.questions),
           Swap16(h.answer), Swap16(h.authority), Swap16(h.additional))
  }

  /** The struct as memory. */
  function MemoryOf(h: Header): (r: Bytes)
    ensures |r| == HEADER
  {
    Memory16(h.transactionId) + Memory16(h.flags) + Memory16(h.questions)
    + Memory16(h.answer) + Memory16(h.authority) + Memory16(h.additional)
  }

  /** The header in network order, section 4.1.1 of RFC 1035. */
  function WireHeader(h: Header): (r: Bytes)
    ensures |r| == HEADER
  {
    Wire16(h.transactionId) + Wire16(h.flags) + Wire16(h.questions)
    + Wire16(h.answer) + Wire16(h.authority) + Wire16(h.additional)
  }

  /** Lines 257-268. */
  function HeaderAt(m: Bytes): Header
    requires |m| >= HEADER
  {
    Header(Field(m, 0), Field(m, 2), Field(m, 4), Field(m, 6), Field(m, 8), Field(m, 10))
  }

  lemma MemoryIsWire(h: Header)
    ensures MemoryOf(Stored(h)) == WireHeader(h)
  {
    MemoryOfSwapped(h.transactionId);
    MemoryOfSwapped(h.flags);
    MemoryOfSwapped(h.questions);
    MemoryOfSwapped(h.answer);
    MemoryOfSwapped(h.authority);
    MemoryOfSwapped(h.additional);
  }

  /** Parsing a header recovers all six fields. */
  lemma HeaderReadsBack(h: Header, m: Bytes)
    requires HasAt(m, 0, WireHeader(h))
    ensures HeaderAt(m) == h
  {
    var w := WireHeader(h);
    assert w[0] == m[0] && w[1] == m[1] && w[2] == m[2] && w[3] == m[3] && w[4] == m[4] && w[5] == m[5];
    assert w[6] == m[6] && w[7] == m[7] && w[8] == m[8] && w[9] == m[9] && w[10] == m[10] && w[11] == m[11];
    FieldOfWire(m, 0, h.transactionId);
    FieldOfWire(m, 2, h.flags);
    FieldOfWire(m, 4, h.questions);
    FieldOfWire(m, 6, h.answer);
    FieldOfWire(m, 8, h.authority);
    FieldOfWire(m, 10, h.additional);
  }

  /** The query header for a random id: one question, recursion desired. */
  function QueryHeader(id: word16): Header {
    Header(id, 0x0100, 1, 0, 0, 0)
  }

  lemma HeaderOctets(id: word16)
    ensures WireHeader(QueryHeader(id)) == [id / 256, id % 256, 1, 0, 0, 1, 0, 0, 0, 0, 0, 0]
  {
  }

  /** dnsCreateHeader: `random` is the low half of `random()`; the flags are or-ed into zero. */
  method CreateHeader(random: word16) returns (stored: Header)
    ensures stored == Stored(QueryHeader(random))
    ensures MemoryOf(stored) == [random / 256, random % 256, 1, 0, 0, 1, 0, 0, 0, 0, 0, 0]
  {
    MemoryIsWire(QueryHeader(random));
    HeaderOctets(random);
    stored := Header(0, 0, 0, 0, 0, 0);
    stored := stored.(transactionId := Swap16(random));
    stored := stored.(flags := Swap16(0x0100));
    stored := stored.(questions := Swap16(1));
  }

  // ------------------------------------------------------------------ request

  /** What dnsMergeRequest puts at the front of the buffer. */
  function RequestBytes(stored: Header, qName: Bytes): Bytes {
    MemoryOf(stored) + (qName + (Memory16(Swap16(1)) + Memory16(Swap16(1))))
  }

  /**
   dnsMergeRequest: clears the first `len` octets, then copies header, name, type and class.  The code
   does not compare their size with the buffer: `ok` says that no copy leaves it, and the run of the
   model ends at one that would.
   */
  method MergeRequest(stored: Header, qName: array<byte>, request: array<byte>, len: nat)
    returns (ok: bool, offset: int)
    requires qName != request && len <= request.Length
    modifies request
    ensures len < 1 ==> ok && offset == -1 && request[..] == old(request[..])
    ensures len >= 1 ==> (ok <==> HEADER + qName.Length + 4 <= request.Length)
    ensures len >= 1 && ok ==> offset == HEADER + qName.Length + 4
    ensures len >= 1 && ok ==> request[..offset] == RequestBytes(stored, qName[..])
    ensures len >= 1 && ok ==> forall k :: offset <= k < request.Length ==>
      request[k] == if k < len then 0 else old(request[k])
  {
    if len < 1 {
      return true, -1;
    }
    forall k | 0 <= k < len {
      request[k] := 0;
    }
    ok := CopyRequest(stored, qName, request);
    offset := HEADER + qName.Length + 4;
  }

  /** Lines 132-139. */
  method CopyRequest(stored: Header, qName: array<byte>, request: array<byte>) returns (ok: bool)
    requires qName != request
    modifies request
    ensures ok <==> HEADER + qName.Length + 4 <= request.Length
    ensures ok ==> request[..] == Spliced(old(request[..]), 0, RequestBytes(stored, qName[..]))
  {
    ghost var before := request[..];
    var offset := HEADER;
    ok := CopyInto(request, 0, MemoryOf(stored));
    if ok {
      ok := CopyInto(request, offset, qName[..]);
      offset := offset + qName.Length;
    }
    if ok {
      ok := CopyInto(request, offset, Memory16(Swap16(1)));
    }
    if ok {
      ok := CopyInto(request, offset + 2, Memory16(Swap16(1)));
    }
    if ok {
      FourSplices(before, MemoryOf(stored), qName[..], Memory16(Swap16(1)), Memory16(Swap16(1)));
    }
  }

  /** Four copies, each behind the other. */
  lemma FourSplices(q: Bytes, a: Bytes, b: Bytes, c: Bytes, d: Bytes)
    requires |a| + |b| + |c| + |d| <= |q|
    ensures Spliced(Spliced(Spliced(Spliced(q, 0, a), |a|, b), |a| + |b|, c), |a| + |b| + |c|, d)
         == Spliced(q, 0, a + (b + (c + d)))
  {
    assert Spliced(Spliced(q, 0, a), |a|, b) == Spliced(q, 0, a + b) by {
      SplicedTwice(q, 0, a, b);
    }
    assert Spliced(Spliced(q, 0, a + b), |a| + |b|, c) == Spliced(q, 0, a + b + c) by {
      SplicedTwice(q, 0, a + b, c);
    }
    SplicedTwice(q, 0, a + b + c, d);
    Regroup(a + b, c, d);
    Regroup(a, b, c + d);
  }

  // ------------------------------------------------------------------ questions

  /** The octets at `p` are a chain of length-prefixed pieces that ends in a zero octet. */
  predicate Chain(m: Bytes, p: nat)
    decreases |m| - p
  {
    p < |m| && (m[p] == 0 || Chain(m, p + 1 + m[p]))
  }

  /** Where the loop at lines 284-292 stops. */
  function ChainEnd(m: Bytes, p: nat): (r: nat)
    requires Chain(m, p)
    ensures p < r <= |m|
    decreases |m| - p
  {
    if m[p] == 0 then p + 1 else ChainEnd(m, p + 1 + m[p])
  }

  /** Lines 284-292. */
  method SkipName(response: array<byte>, p: nat) returns (p': nat)
    requires Chain(response[..], p)
    ensures p' == ChainEnd(response[..], p)
  {
    ghost var m := response[..];
    p' := p;
    while true
      invariant Chain(m, p') && ChainEnd(m, p') == ChainEnd(m, p)
      decreases response.Length - p'
    {
      var flag := response[p'];
      p' := p' + flag + 1;
      if flag == 0 {
        break;
      }
    }
  }

  /** The loop skips an encoded name to just behind its zero octet. */
  lemma {:induction false} ChainOfEncoded(m: Bytes, p: nat, labels: Labels)
    requires HasAt(m, p, Encode(labels) + [0])
    requires forall l :: l in labels ==> 0 < |l| < 256
    ensures Chain(m, p) && ChainEnd(m, p) == p + |Encode(labels)| + 1
    decreases |labels|
  {
    EncodedAt(m, p, labels);
    if labels != [] {
      var l := labels[0];
      assert l in labels && LengthOctet(|l|) == |l|;
      ChainOfEncoded(m, p + 1 + |l|, labels[1..]);
    }
  }

  /**
   Request layout: the parser reads back the query header, and its question loop stops exactly at
   the returned offset if and only if the hostname has no empty label.  The bytes of `qName` behind
   the encoded name are whatever the uninitialised buffer held.
   */
  lemma RequestMatchesParser(id: word16, hostname: Bytes, garbage: Bytes, rest: Bytes)
    requires Tokens(hostname) != [] && forall l :: l in Tokens(hostname) ==> |l| < 256
    requires |Written(Tokens(hostname)) + garbage| == |hostname| + 2
    ensures var m := RequestBytes(Stored(QueryHeader(id)), Written(Tokens(hostname)) + garbage) + rest;
      var offset := HEADER + |hostname| + 2 + 4;
      && |m| == offset + |rest|
      && HeaderAt(m) == QueryHeader(id)
      && Chain(m, HEADER)
      && (ChainEnd(m, HEADER) + 4 == offset <==> NoEmptyLabel(hostname))
  {
    var labels, h := Tokens(hostname), QueryHeader(id);
    var qName := Written(labels) + garbage;
    var m := RequestBytes(Stored(h), qName) + rest;
    RequestLayout(h, Written(labels), garbage, rest);
    HeaderReadsBack(h, m);
    ChainOfEncoded(m, HEADER, labels);
    WrittenSize(hostname);
  }

  /** Where header and name lie in a request. */
  lemma RequestLayout(h: Header, name: Bytes, garbage: Bytes, rest: Bytes)
    ensures var m := RequestBytes(Stored(h), name + garbage) + rest;
      && |m| == HEADER + |name| + |garbage| + 4 + |rest|
      && HasAt(m, 0, WireHeader(h)) && HasAt(m, HEADER, name)
  {
    MemoryIsWire(h);
    NameAndHeader(WireHeader(h), name, garbage, Memory16(Swap16(1)) + Memory16(Swap16(1)), rest);
  }

  lemma NameAndHeader(header: Bytes, name: Bytes, garbage: Bytes, fields: Bytes, rest: Bytes)
    ensures var m := header + ((name + garbage) + fields) + rest;
      HasAt(m, 0, header) && HasAt(m, |header|, name)
  {
    var m := header + ((name + garbage) + fields) + rest;
    assert m == header + (name + (garbage + fields + rest));
    ThreeParts(header, name, garbage + fields + rest);
  }

  /**
   A first label whose length is a multiple of 256 is written with the length octet zero: the question
   loop stops right behind it, and so never at the returned offset.
   */
  lemma WrappedLabelMisparsed(id: word16, hostname: Bytes, garbage: Bytes, rest: Bytes)
    requires Tokens(hostname) != [] && |Tokens(hostname)[0]| % 256 == 0
    requires |Written(Tokens(hostname)) + garbage| == |hostname| + 2
    ensures var m := RequestBytes(Stored(QueryHeader(id)), Written(Tokens(hostname)) + garbage) + rest;
      && |m| > HEADER && Chain(m, HEADER)
      && ChainEnd(m, HEADER) + 4 == HEADER + 5 < HEADER + |hostname| + 2 + 4
  {
    var labels := Tokens(hostname);
    RequestLayout(QueryHeader(id), Written(labels), garbage, rest);
    var m := RequestBytes(Stored(QueryHeader(id)), Written(labels) + garbage) + rest;
    EncodedThen(m, HEADER, labels, [0]);
    assert m[HEADER] == 0;
    WrittenSize(hostname);
  }

  /** `m` has the size of a request for that hostname, and the encoded name behind the header. */
  predicate RequestFor(m: Bytes, hostname: Bytes) {
    |m| == HEADER + |hostname| + 2 + 4 && HasAt(m, HEADER, Written(Tokens(hostname)))
  }

  lemma AssembledRequest(id: word16, hostname: Bytes, garbage: Bytes)
    requires |Written(Tokens(hostname)) + garbage| == |hostname| + 2
    ensures RequestFor(RequestBytes(Stored(QueryHeader(id)), Written(Tokens(hostname)) + garbage) + [], hostname)
  {
    RequestLayout(QueryHeader(id), Written(Tokens(hostname)), garbage, []);
  }

  /**
   For labels of 256 octets and more the lengths alone do not decide: of two hostnames of 257 octets
   in one label, the question loop stops at the returned offset for one and runs out of the other.
   */
  lemma LengthsDoNotDecide(l: Bytes, r: Bytes, m: Bytes, n: Bytes)
    requires |l| == |r| == 257
    requires forall k :: 0 <= k < 257 ==> l[k] == 0x7F && r[k] == 0x61
    requires RequestFor(m, l) && RequestFor(n, r)
    ensures Tokens(l) == [l] && Tokens(r) == [r]
    ensures Chain(m, HEADER) && ChainEnd(m, HEADER) + 4 == |m|
    ensures !Chain(n, HEADER)
  {
    OneToken(l);
    OneLabelAt(m, [l]);
    HopsToTheEnd(m);
    OneToken(r);
    OneLabelAt(n, [r]);
    HopsAcross(n);
  }

  lemma OneToken(l: Bytes)
    requires l != [] && DOT !in l
    ensures Tokens(l) == [l] && Written(Tokens(l)) == Encode([l]) + [0]
  {
    TokensTake(l, []);
  }

  lemma OneLabelAt(m: Bytes, labels: Labels)
    requires |labels| == 1 && |labels[0]| == 257 && HasAt(m, HEADER, Encode(labels) + [0])
    ensures |Encode(labels)| == 258 && |m| > 270 && m[12] == 1 && m[270] == 0 && m[13..270] == labels[0]
  {
    var zero: Bytes := [0];
    EncodedThen(m, HEADER, labels, zero);
    assert zero[0] == m[270];
  }

  lemma HopsToTheEnd(m: Bytes)
    requires |m| == 275 && m[12] == 1 && m[270] == 0 && forall k :: 0 <= k < 257 ==> m[13..270][k] == 0x7F
    ensures Chain(m, 12) && ChainEnd(m, 12) == 271
  {
    assert m[13..270][1] == m[14] && m[13..270][129] == m[142];
    assert Chain(m, 270) && ChainEnd(m, 270) == 271;
    assert Chain(m, 142) && ChainEnd(m, 142) == 271;
    assert Chain(m, 14) && ChainEnd(m, 14) == 271;
  }

  lemma HopsAcross(m: Bytes)
    requires |m| == 275 && m[12] == 1 && forall k :: 0 <= k < 257 ==> m[13..270][k] == 0x61
    ensures !Chain(m, 12)
  {
    assert m[13..270][1] == m[14] && m[13..270][99] == m[112] && m[13..270][197] == m[210];
    assert !Chain(m, 308);
    assert !Chain(m, 210);
    assert !Chain(m, 112);
    assert !Chain(m, 14);
  }

  /**
   The octets of a request that ends at `offset`, sections 4.1.1 and 4.1.2 of RFC 1035: the id, the
   flags with recursion desired alone, one question and no records; the name; type 1 and class 1.
   */
  predicate IsRequest(m: Bytes, offset: int, id: word16, hostname: Bytes) {
    && offset == 12 + |hostname| + 2 + 4 <= |m|
    && m[0] == id / 256 && m[1] == id % 256
    && m[2] == 1 && m[3] == 0
    && m[4] == 0 && m[5] == 1
    && (forall k :: 6 <= k < 12 ==> m[k] == 0)
    && HasAt(m, 12, Written(Tokens(hostname)))
    && m[offset - 4] == 0 && m[offset - 3] == 1 && m[offset - 2] == 0 && m[offset - 1] == 1
  }

  lemma RequestOctets(m: Bytes, id: word16, hostname: Bytes, garbage: Bytes)
    requires |Written(Tokens(hostname)) + garbage| == |hostname| + 2
    requires HasAt(m, 0, RequestBytes(Stored(QueryHeader(id)), Written(Tokens(hostname)) + garbage))
    ensures IsRequest(m, 12 + |hostname| + 2 + 4, id, hostname)
  {
    var h, name, fields := QueryHeader(id), Written(Tokens(hostname)) + garbage, Wire16(1) + Wire16(1);
    MemoryIsWire(h);
    MemoryOfSwapped(1);
    HeaderOctets(id);
    FieldsOctets();
    HasAtConcat(m, 0, WireHeader(h), name + fields);
    HasAtConcat(m, 12, name, fields);
    HasAtConcat(m, 12, Written(Tokens(hostname)), garbage);
    HeaderInFront(m, WireHeader(h), id);
    FieldsAtEnd(m, 12 + |name|, fields);
  }

  /** What the parser makes of those octets. */
  lemma RequestParses(m: Bytes, offset: int, id: word16, hostname: Bytes)
    requires IsRequest(m, offset, id, hostname)
    requires Tokens(hostname) != [] && forall l :: l in Tokens(hostname) ==> |l| < 256
    ensures HeaderAt(m) == Header(id, 0x0100, 1, 0, 0, 0)
    ensures Chain(m, HEADER) && (ChainEnd(m, HEADER) + 4 == offset <==> NoEmptyLabel(hostname))
  {
    FieldOfWire(m, 0, id);
    ChainOfEncoded(m, HEADER, Tokens(hostname));
    WrittenSize(hostname);
  }

  lemma FieldsOctets()
    ensures Wire16(1) + Wire16(1) == [0, 1, 0, 1]
  {
  }

  lemma HeaderInFront(m: Bytes, w: Bytes, id: word16)
    requires HasAt(m, 0, w) && w == [id / 256, id % 256, 1, 0, 0, 1, 0, 0, 0, 0, 0, 0]
    ensures |m| >= 12 && m[0] == id / 256 && m[1] == id % 256
    ensures m[2] == 1 && m[3] == 0 && m[4] == 0 && m[5] == 1 && forall k :: 6 <= k < 12 ==> m[k] == 0
  {
    assert w[0] == m[0] && w[1] == m[1] && w[2] == m[2] && w[3] == m[3] && w[4] == m[4] && w[5] == m[5];
    forall k | 6 <= k < 12
      ensures m[k] == 0
    {
      assert w[k] == m[0 + k];
    }
  }

  lemma FieldsAtEnd(m: Bytes, p: nat, w: Bytes)
    requires HasAt(m, p, w) && w == [0, 1, 0, 1]
    ensures p + 4 <= |m| && m[p] == 0 && m[p + 1] == 1 && m[p + 2] == 0 && m[p + 3] == 1
  {
    assert w[0] == m[p + 0] && w[1] == m[p + 1] && w[2] == m[p + 2] && w[3] == m[p + 3];
  }

  /** Header, body and assembly, one after the other: the octets sent. */
  method MakeRequest(hostname: Bytes, random: word16, request: array<byte>, len: nat)
    returns (ok: bool, offset: int)
    requires 1 <= len <= request.Length
    modifies request
    ensures ok <==> HEADER + |hostname| + 2 + 4 <= request.Length
    ensures ok ==> IsRequest(request[..], offset, random, hostname)
  {
    var stored := CreateHeader(random);
    var qName := new byte[|hostname| + 2];
    ghost var garbage := qName[..];
    CreateBody(hostname, qName);
    garbage := garbage[|Written(Tokens(hostname))|..];
    ok, offset := MergeRequest(stored, qName, request, len);
    if ok {
      PrefixHasAt(request[..], RequestBytes(stored, qName[..]));
      RequestOctets(request[..], random, hostname, garbage);
    }
  }

  lemma PrefixHasAt(m: Bytes, w: Bytes)
    requires |w| <= |m| && m[..|w|] == w
    ensures HasAt(m, 0, w)
  {
  }

  /** The parser's header and question loop on a request. */
  method RequestThenParse(hostname: Bytes, random: word16, request: array<byte>, len: nat)
    returns (ok: bool, offset: int, header: Header, cursor: nat)
    requires 1 <= len <= request.Length
    requires Tokens(hostname) != [] && forall l :: l in Tokens(hostname) ==> |l| < 256
    modifies request
    ensures ok <==> HEADER + |hostname| + 2 + 4 <= request.Length
    ensures ok ==> offset == HEADER + |hostname| + 2 + 4 && header == Header(random, 0x0100, 1, 0, 0, 0)
    ensures ok ==> (cursor + 4 == offset <==> NoEmptyLabel(hostname))
  {
    ok, offset := MakeRequest(hostname, random, request, len);
    header, cursor := Header(0, 0, 0, 0, 0, 0), 0;
    if ok {
      RequestParses(request[..], offset, random, hostname);
      header := ReadHeader(request);
      cursor := SkipName(request, HEADER);
    }
  }

  // ------------------------------------------------------------------ the response parser

  const CNAME: word16 := 5
  const HOST: word16 := 1
  const NAME_BUFFER := 128
  const DATA_BUFFER := 255
  /** `sizeof` of an `int` expression, line 333. */
  const ADDRESS_BUFFER := 4

  /** The data of an answer: nothing for types the parser does not read. */
  datatype Data = Nothing | Cname(text: Bytes) | Address(text: Bytes)

  datatype Answer = Answer(name: Bytes, qType: word16, qClass: word16, ttl: word16, dataLen: word16, data: Data)

  /** What the caller gets: the header, and the answers from the front of the list. */
  datatype DnsAnswer = DnsAnswer(header: Header, body: seq<Answer>)

  /** `n` questions start at `p`. */
  predicate QuestionsOk(m: Bytes, p: nat, n: nat)
    decreases n
  {
    n == 0 || (Chain(m, p) && QuestionsOk(m, ChainEnd(m, p) + 4, n - 1))
  }

  function QuestionsEnd(m: Bytes, p: nat, n: nat): (r: nat)
    requires QuestionsOk(m, p, n)
    ensures r >= p
    decreases n
  {
    if n == 0 then p else QuestionsEnd(m, ChainEnd(m, p) + 4, n - 1)
  }

  /** A record lies at `p`: fixed part, well-formed names, and the data. */
  predicate RecordOk(m: Bytes, p: nat) {
    && p + 12 <= |m|
    && p + 12 + Field(m, p + 10) <= |m|
    && WellFormed(Code, m, p, p)
    && (Field(m, p + 2) == CNAME ==> WellFormed(Code, m, p + 12, p + 12))
  }

  /** The record at `p` is one whose data the parser turns into address text. */
  predicate IsAddress(m: Bytes, p: nat)
    requires RecordOk(m, p)
  {
    Field(m, p + 2) == HOST && Field(m, p + 10) == 4
  }

  /** What the name decoder writes for the record at `p` fits the buffers, lines 308 and 326. */
  predicate Fits(m: Bytes, p: nat)
    requires RecordOk(m, p)
  {
    && |DecodedText(m, p, p)| <= NAME_BUFFER
    && (Field(m, p + 2) == CNAME ==> |DecodedText(m, p + 12, p + 12)| <= DATA_BUFFER)
  }

  /** All that is written for it fits: also the address text with its terminator, line 335. */
  predicate Inside(m: Bytes, p: nat)
    requires RecordOk(m, p)
  {
    Fits(m, p) && (IsAddress(m, p) ==> |DottedQuad(m[p + 12..p + 16])| + 1 <= ADDRESS_BUFFER)
  }

  /** That is so exactly when the names fit and the record holds no address. */
  lemma InsideExactly(m: Bytes, p: nat)
    requires RecordOk(m, p)
    ensures Inside(m, p) <==> Fits(m, p) && !IsAddress(m, p)
  {
    if IsAddress(m, p) {
      DottedQuadSize(m[p + 12..p + 16]);
    }
  }

  /** What the parser takes from the record at `p`; its owner name occupies two octets. */
  function AnswerAt(m: Bytes, p: nat): Answer
    requires RecordOk(m, p)
  {
    Answer(DecodedText(m, p, p), Field(m, p + 2), Field(m, p + 4), Field(m, p + 6), Field(m, p + 10), DataAt(m, p))
  }

  function DataAt(m: Bytes, p: nat): Data
    requires RecordOk(m, p)
  {
    if Field(m, p + 2) == CNAME then Cname(DecodedText(m, p + 12, p + 12))
    else if IsAddress(m, p) then Address(DottedQuad(m[p + 12..p + 16]))
    else Nothing
  }

  /** Where the record at `p` ends: its fixed part and its data. */
  function RecordEnd(m: Bytes, p: nat): nat
    requires p + 12 <= |m|
  {
    p + 12 + Field(m, p + 10)
  }

  /** Where the `i`-th of the records that start at `p` begins. */
  function RecordStart(m: Bytes, p: nat, i: nat): nat {
    if i == 0 then p
    else
      var q := RecordStart(m, p, i - 1);
      if q + 12 <= |m| then RecordEnd(m, q) else q
  }

  /** `n` records lie one behind the other from `p` on. */
  predicate RecordsOk(m: Bytes, p: nat, n: nat) {
    forall i: nat :: i < n ==> RecordOk(m, RecordStart(m, p, i))
  }

  /** The data buffer suffices for every name within the limit, even where the decoder adds a dot. */
  lemma DataBufferSuffices(m: Bytes, p: nat)
    requires WellFormed(Rfc, m, p, p) && NearPointers(m, p, p) && WireLength(LabelsAt(Rfc, m, p, p)) <= 255
    ensures WellFormed(Code, m, p, p) && |DecodedText(m, p, p)| <= 254 <= DATA_BUFFER
  {
    TextLimit(m, p);
  }

  /** So it is for all `n` records from `p` on: the names fit. */
  predicate AllFit(m: Bytes, p: nat, n: nat)
    requires RecordsOk(m, p, n)
  {
    forall i: nat :: i < n ==> Fits(m, RecordStart(m, p, i))
  }

  /** ... and all that is written fits. */
  predicate AllInside(m: Bytes, p: nat, n: nat)
    requires RecordsOk(m, p, n)
  {
    forall i: nat :: i < n ==> Inside(m, RecordStart(m, p, i))
  }

  function InsideAt(m: Bytes, p: nat, n: nat): (r: seq<bool>)
    requires RecordsOk(m, p, n)
    ensures |r| == n
  {
    seq(n, (i: nat) requires i < n && RecordOk(m, RecordStart(m, p, i)) => Inside(m, RecordStart(m, p, i)))
  }

  function FitsAt(m: Bytes, p: nat, n: nat): (r: seq<bool>)
    requires RecordsOk(m, p, n)
    ensures |r| == n
  {
    seq(n, (i: nat) requires i < n && RecordOk(m, RecordStart(m, p, i)) => Fits(m, RecordStart(m, p, i)))
  }

  function AnswersAt(m: Bytes, p: nat, n: nat): (r: seq<Answer>)
    requires RecordsOk(m, p, n)
    ensures |r| == n
  {
    seq(n, (i: nat) requires i < n && RecordOk(m, RecordStart(m, p, i)) => AnswerAt(m, RecordStart(m, p, i)))
  }

  function Reversed<X>(s: seq<X>): (r: seq<X>)
    ensures |r| == |s| && forall i :: 0 <= i < |s| ==> r[i] == s[|s| - 1 - i]
  {
    seq(|s|, i requires 0 <= i < |s| => s[|s| - 1 - i])
  }

  /** The error code the parser isolates: the low four bits of the flags. */
  function Rcode(h: Header): nat {
    Xor(DropLow4(h.flags), h.flags)
  }

  /** The layout the parser relies on, given that the error code is zero. */
  predicate LayoutOk(m: Bytes) {
    && |m| >= HEADER
    && (Rcode(HeaderAt(m)) == 0 ==>
          && QuestionsOk(m, HEADER, HeaderAt(m).questions)
          && RecordsOk(m, QuestionsEnd(m, HEADER, HeaderAt(m).questions), HeaderAt(m).answer))
  }

  method ReadField(response: array<byte>, p: nat) returns (v: word16)
    requires p + 2 <= response.Length
    ensures v == Field(response[..], p)
  {
    NtohsOfLoad(response[p], response[p + 1]);
    v := Swap16(Load16(response[p], response[p + 1]));
  }

  /**
   Lines 304-340: one record.  `ok` says that no write of the name decoder leaves its buffer; the run
   of the model ends at one that would.  `inside` says the same of every write; a run goes on behind
   an address text that leaves its buffer.
   */
  method ParseRecord(response: array<byte>, p: nat) returns (ok: bool, inside: bool, answer: Answer, p': nat)
    requires RecordOk(response[..], p)
    ensures (ok <==> Fits(response[..], p)) && (inside <==> Inside(response[..], p))
    ensures ok ==> answer == AnswerAt(response[..], p) && p' == RecordEnd(response[..], p)
  {
    var name: Bytes;
    ok, name := ReadName(response, p, NAME_BUFFER);
    if !ok {
      return false, false, Answer([], 0, 0, 0, 0, Nothing), p;
    }
    inside := true;
    var qType := ReadField(response, p + 2);
    var qClass := ReadField(response, p + 4);
    var ttl := ReadField(response, p + 6);
    var dataLen := ReadField(response, p + 10);
    var data := Nothing;
    if qType == CNAME {
      var text: Bytes;
      ok, text := ReadName(response, p + 12, DATA_BUFFER);
      data, inside := Cname(text), ok;
    } else if qType == HOST && dataLen == 4 {
      var text := DottedQuad(response[p + 12..p + 16]);
      data, inside := Address(text), |text| + 1 <= ADDRESS_BUFFER;
    }
    answer := Answer(name, qType, qClass, ttl, dataLen, data);
    p' := p + 12 + dataLen;
  }

  /** A fresh buffer, the decoder, and the octets it produced, unless a write would leave the buffer. */
  method ReadName(response: array<byte>, p: nat, size: nat) returns (ok: bool, text: Bytes)
    requires WellFormed(Code, response[..], p, p)
    ensures ok <==> |DecodedText(response[..], p, p)| <= size
    ensures ok ==> text == DecodedText(response[..], p, p)
  {
    var buffer := new byte[size];
    var len: nat;
    ok, len := ParseName(response, response[..], p, p, buffer, 0);
    text := if ok then buffer[..len] else [];
  }

  /**
   dnsResponseParse: header, error code, questions, and the answers, each put in front of the list.
   For an error reply it delivers nothing: the caller's structure stays as it was.  `ok` and `inside`
   are as for one record.
   */
  method ParseResponse(response: array<byte>, before: DnsAnswer)
    returns (ok: bool, inside: bool, ret: int, after: DnsAnswer, cursor: nat)
    requires LayoutOk(response[..])
    ensures Rcode(HeaderAt(response[..])) == HeaderAt(response[..]).flags % 16
    ensures HeaderAt(response[..]).flags % 16 != 0 ==> ok && inside && ret == -2 && after == before
    ensures HeaderAt(response[..]).flags % 16 == 0 ==>
      var header := HeaderAt(response[..]);
      var first := QuestionsEnd(response[..], HEADER, header.questions);
      && (ok <==> AllFit(response[..], first, header.answer))
      && (inside <==> AllInside(response[..], first, header.answer))
      && (ok ==> ret == 0)
      && (ok ==> after == DnsAnswer(header, Reversed(AnswersAt(response[..], first, header.answer))))
      && (ok ==> cursor == RecordStart(response[..], first, header.answer))
  {
    ghost var m := response[..];
    var header := ReadHeader(response);
    cursor := HEADER;
    XorDropLow4(header.flags);
    var rcode := Xor(DropLow4(header.flags), header.flags);
    if rcode != 0 {
      return true, true, -2, before, cursor;
    }
    cursor := SkipQuestions(response, cursor, header.questions);
    ghost var n := header.answer;
    ghost var all, fits, insides := AnswersAt(m, cursor, n), FitsAt(m, cursor, n), InsideAt(m, cursor, n);
    AnswersRead(m, cursor, n);
    AllFitAt(m, cursor, n);
    AllInsideAt(m, cursor, n);
    var answers: seq<Answer>;
    ok, inside, answers, cursor := ParseRecords(response, cursor, header.answer, all, fits, insides);
    ret, after := 0, DnsAnswer(header, answers);
  }

  /** Lines 282-297. */
  method SkipQuestions(response: array<byte>, p: nat, n: nat) returns (cursor: nat)
    requires QuestionsOk(response[..], p, n)
    ensures cursor == QuestionsEnd(response[..], p, n)
  {
    ghost var m := response[..];
    cursor := p;
    for i := 0 to n
      invariant QuestionsOk(m, cursor, n - i)
      invariant QuestionsEnd(m, cursor, n - i) == QuestionsEnd(m, p, n)
    {
      cursor := SkipName(response, cursor);
      cursor := cursor + 4;
    }
  }

  /** Names a turn of the loop below; what `Reads` says of it is used in that turn only. */
  predicate Turn(i: nat) {
    true
  }

  /** `all` are the answers of the `n` records from `p` on; the flags say what fits. */
  predicate Reads(m: Bytes, p: nat, n: nat, all: seq<Answer>, fits: seq<bool>, insides: seq<bool>) {
    |all| == |fits| == |insides| == n &&
    forall i: nat {:trigger Turn(i)} :: Turn(i) && i < n ==>
      var q := RecordStart(m, p, i);
      RecordOk(m, q) && all[i] == AnswerAt(m, q) && fits[i] == Fits(m, q) && insides[i] == Inside(m, q)
  }

  lemma AnswersRead(m: Bytes, p: nat, n: nat)
    requires RecordsOk(m, p, n)
    ensures Reads(m, p, n, AnswersAt(m, p, n), FitsAt(m, p, n), InsideAt(m, p, n))
  {
  }

  lemma AllFitAt(m: Bytes, p: nat, n: nat)
    requires RecordsOk(m, p, n)
    ensures AllFit(m, p, n) <==> false !in FitsAt(m, p, n)
  {
    if !AllFit(m, p, n) {
      var i: nat :| i < n && !Fits(m, RecordStart(m, p, i));
      assert FitsAt(m, p, n)[i] == false;
    }
  }

  lemma AllInsideAt(m: Bytes, p: nat, n: nat)
    requires RecordsOk(m, p, n)
    ensures AllInside(m, p, n) <==> false !in InsideAt(m, p, n)
  {
    if !AllInside(m, p, n) {
      var i: nat :| i < n && !Inside(m, RecordStart(m, p, i));
      assert InsideAt(m, p, n)[i] == false;
    }
  }

  /** Lines 302-341: every record goes in front of the list. */
  method ParseRecords(response: array<byte>, p: nat, n: nat,
                      ghost all: seq<Answer>, ghost fits: seq<bool>, ghost insides: seq<bool>)
    returns (ok: bool, inside: bool, answers: seq<Answer>, cursor: nat)
    requires Reads(response[..], p, n, all, fits, insides)
    ensures (ok <==> false !in fits) && (inside <==> false !in insides)
    ensures ok ==> answers == Reversed(all) && cursor == RecordStart(response[..], p, n)
  {
    ok, inside, answers, cursor := true, true, [], p;
    for i := 0 to n
      invariant ok && false !in fits[..i] && (inside <==> false !in insides[..i])
      invariant cursor == RecordStart(response[..], p, i)
      invariant answers == Reversed(all[..i])
    {
      var answer: Answer, fine: bool;
      ok, fine, answer, cursor := NextRecord(response, cursor, p, n, i, all, fits, insides);
      inside := inside && fine;
      if !ok {
        return;
      }
      answers := [answer] + answers;
      ReversedSnoc(all[..i], answer);
      assert all[..i + 1] == all[..i] + [answer];
      assert fits[..i + 1] == fits[..i] + [true] && insides[..i + 1] == insides[..i] + [fine];
    }
    assert all[..n] == all && fits[..n] == fits && insides[..n] == insides;
  }

  lemma ReversedSnoc<X>(s: seq<X>, x: X)
    ensures Reversed(s + [x]) == [x] + Reversed(s)
  {
  }

  method NextRecord(response: array<byte>, cursor: nat, ghost p: nat, ghost n: nat, ghost i: nat,
                    ghost all: seq<Answer>, ghost fits: seq<bool>, ghost insides: seq<bool>)
    returns (ok: bool, fine: bool, answer: Answer, cursor': nat)
    requires Reads(response[..], p, n, all, fits, insides) && i < n && cursor == RecordStart(response[..], p, i)
    ensures ok == fits[i] && fine == insides[i] && (!ok ==> !fine)
    ensures ok ==> answer == all[i] && cursor' == RecordStart(response[..], p, i + 1)
  {
    assert Turn(i);
    ok, fine, answer, cursor' := ParseRecord(response, cursor);
  }

  method ReadHeader(response: array<byte>) returns (header: Header)
    requires response.Length >= HEADER
    ensures header == HeaderAt(response[..])
  {
    var transactionId := ReadField(response, 0);
    var flags := ReadField(response, 2);
    var questions := ReadField(response, 4);
    var answer := ReadField(response, 6);
    var authority := ReadField(response, 8);
    var additional := ReadField(response, 10);
    header := Header(transactionId, flags, questions, answer, authority, additional);
  }
}
