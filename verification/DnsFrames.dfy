/** Whole frames: what `handle_dns` of dns_server.py answers to the query that a frame carries. */
module DnsFrames {
  import opened Wrappers
  import opened Bytes
  import opened DnsRecords
  import opened DnsWire
  import opened DnsResponse

  /**
  An Ethernet header, an IPv4 header (its first octet gives its length in words), a UDP header, and the rest of the
  frame.
  */
  predicate IsUdpFrame(msg: seq<byte>, eth: seq<byte>, ip: seq<byte>, udp: seq<byte>, rest: seq<byte>) {
    && msg == eth + ip + udp + rest
    && |eth| == 14 && |ip| >= 4 && |ip| == (ip[0] % 16) * 4 && |udp| == 8
  }

  /** The payload is what follows the UDP header, if it can hold a DNS header. */
  lemma PayloadFollowsHeaders(msg: seq<byte>, eth: seq<byte>, ip: seq<byte>, udp: seq<byte>, rest: seq<byte>)
    requires IsUdpFrame(msg, eth, ip, udp, rest)
    ensures Payload(msg) == if |rest| >= 12 then Some(rest) else None
  {
    assert msg[14] == (eth + ip + udp + rest)[14] == ip[0];
    assert (eth + ip + udp + rest)[|eth| + |ip| + |udp|..] == rest;
  }

  /** Reading stops at the end of the data, not before: a lone pointer octet at the end makes it raise. */
  lemma StrayPointerRaises(data: seq<byte>, off: nat, count: nat, jumps: nat)
    requires count > 0
    ensures off >= |data| ==> ParseQuestions(data, off, count, jumps) == Questions([])
    ensures off + 1 == |data| && data[off] >= 192 ==> ParseQuestions(data, off, count, jumps) == ParseRaises
  { }

  /** Only standard queries are answered: the QR bit and the operation code are zero (section 4.1.1 of RFC 1035). */
  lemma StandardQueryIff(data: seq<byte>, qr: nat, opcode: nat, flags: nat, table: Table, ttl: nat, jumps: nat)
    requires |data| >= 12 && WordAt(data, 2) == qr * 0x8000 + opcode * 0x800 + flags && qr < 2 && opcode < 16 &&
             flags < 0x800
    ensures IsQuery(data) <==> qr == 0 && opcode == 0
    ensures qr != 0 || opcode != 0 ==> Respond(data, table, ttl, jumps) == None
  {
    hide WordAt, ParseQuestions, Response;
    if qr == 0 {
      assert (opcode * 0x800 + flags) / 0x800 == opcode;
    }
  }

  lemma {:induction false} AnswersSnoc(table: Table, ttl: nat, qs: seq<Question>, q: Question)
    ensures AnswersTo(table, ttl, qs + [q]) ==
              AnswersTo(table, ttl, qs) + (if AnswerTo(table, ttl, q).Some? then [AnswerTo(table, ttl, q).value]
                                           else [])
  {
    assert (qs + [q])[..|qs|] == qs;
  }

  /** Each question is answered from the table it asks, if it asks for addresses or names of the Internet class. */
  lemma {:induction false} AnswersIff(table: Table, ttl: nat, qs: seq<Question>, a: Answer)
    ensures a in AnswersTo(table, ttl, qs) <==>
            exists q :: q in qs && q.qclass == QCLASS_IN && (q.qtype == QTYPE_A || q.qtype == QTYPE_PTR) &&
              StoredRecord(table, q).Some? && a == Answer(q.name, q.qtype, ttl, StoredRecord(table, q).value)
    decreases |qs|
  {
    if qs != [] {
      var rest, q := qs[..|qs| - 1], qs[|qs| - 1];
      AnswersIff(table, ttl, rest, a);
      assert qs == rest + [q];
      AnswersSnoc(table, ttl, rest, q);
      hide AnswersTo, PtrNameToIp;
    }
  }

  /**
  A frame with a single-question A or PTR query is answered: the response reads back as the query's identifier and
  question, with the stored record as its one answer, or NXDOMAIN and no answer when there is none.
  */
  lemma FrameRoundTrip(msg: seq<byte>, eth: seq<byte>, ip: seq<byte>, udp: seq<byte>, query: seq<byte>, q: Question,
                       table: Table, ttl: nat, jumps: nat)
    requires IsUdpFrame(msg, eth, ip, udp, query) && SingleQuery(query, q) && ttl < 0x1_0000_0000
    requires StoredRecord(table, q).Some? ==> Sendable(q.qtype, StoredRecord(table, q).value)
    ensures var stored, r := StoredRecord(table, q), AnswerFrame(msg, table, ttl, jumps);
            r.Some? &&
            var end := 12 + |QuestionBytes(q)|;
            if stored.Some? then
              ReadsQuestion(r.value, WordAt(query, 0), 0x8400, 1, q, end) &&
                ReadsAnswer(r.value, end, q, ttl, stored.value)
            else
              ReadsQuestion(r.value, WordAt(query, 0), 0x8403, 0, q, end) && |r.value| == end
  {
    PayloadFollowsHeaders(msg, eth, ip, udp, query);
    hide Payload, Respond, ReadsQuestion, ReadsAnswer, StoredRecord, QuestionBytes, WordAt, OccursAt, Sendable;
    ResponseRoundTrip(query, q, table, ttl, jumps);
  }

  // ---------------------------------------------------------------- several questions

  function QuestionList(qs: seq<Question>): seq<byte>
    requires forall q :: q in qs ==> Encodable(Split(q.name))
  {
    if qs == [] then [] else QuestionBytes(qs[0]) + QuestionList(qs[1..])
  }

  /** Questions printed one after the other are read one after the other. */
  lemma {:induction false} QuestionsAreRead(data: seq<byte>, off: nat, qs: seq<Question>, jumps: nat)
    requires forall q :: q in qs ==> Proper(Split(q.name)) && Encodable(Split(q.name))
    requires OccursAt(data, off, QuestionList(qs))
    ensures ParseQuestions(data, off, |qs|, jumps) == Questions(qs)
    decreases |qs|
  {
    hide ParseQuestions, QuestionBytes, OccursAt, Proper, Encodable, Split;
    if qs == [] {
      ParseStep(data, off, 0, jumps);
    } else {
      var q, rest := qs[0], qs[1..];
      assert qs == [q] + rest;
      FirstQuestionRead(data, off, q, QuestionList(rest), jumps);
      QuestionsAreRead(data, off + |QuestionBytes(q)|, rest, jumps);
      PrependQuestion(data, off, q, QuestionList(rest), rest, jumps);
    }
  }

  lemma PrependQuestion(data: seq<byte>, off: nat, q: Question, bytes: seq<byte>, rest: seq<Question>, jumps: nat)
    requires Proper(Split(q.name)) && Encodable(Split(q.name)) && OccursAt(data, off, QuestionBytes(q) + bytes)
    requires ParseQuestions(data, off + |QuestionBytes(q)|, |rest|, jumps) == Questions(rest)
    ensures ParseQuestions(data, off, |rest| + 1, jumps) == Questions([q] + rest)
  {
    hide ParseQuestions, Decode, Join, WordAt, QuestionBytes, OccursAt, Proper, Encodable, Split;
    FirstQuestionRead(data, off, q, bytes, jumps);
    ParseStep(data, off, |rest| + 1, jumps);
  }

  lemma FirstQuestionRead(data: seq<byte>, off: nat, q: Question, rest: seq<byte>, jumps: nat)
    requires Proper(Split(q.name)) && Encodable(Split(q.name)) && OccursAt(data, off, QuestionBytes(q) + rest)
    ensures off < |data| && off + |QuestionBytes(q)| <= |data| && |QuestionBytes(q)| >= 4
    ensures OccursAt(data, off + |QuestionBytes(q)|, rest)
    ensures var next := off + |QuestionBytes(q)| - 4;
            && Decode(data, off, jumps) == DnsWire.Name(Split(q.name), next) && next + 4 <= |data|
            && q == Question(Join(Split(q.name)), WordAt(data, next), WordAt(data, next + 2))
  {
    hide Decode, WordAt, EncodeDomain, Split, OccursAt, QuestionBytes, Proper, Encodable;
    OccursParts(data, off, QuestionBytes(q), rest);
    QuestionOccurs(data, off, q);
    EncodeDecode(data, off, q.name, jumps);
    QuestionLength(q);
  }

  lemma QuestionLength(q: Question)
    requires Encodable(Split(q.name))
    ensures |QuestionBytes(q)| == |EncodeDomain(q.name)| + 4 && |EncodeDomain(q.name)| >= 1
  {
  }

  /**
  Of several questions only the first is repeated in the response, whose header counts the answers to all of them.
  */
  lemma RespondsWithFirst(data: seq<byte>, qs: seq<Question>, table: Table, ttl: nat, jumps: nat)
    requires IsQuery(data) && ParseQuestions(data, 12, WordAt(data, 4), jumps) == Questions(qs) && qs != []
    requires Proper(Split(qs[0].name)) && Respond(data, table, ttl, jumps).Some?
    ensures var answers := AnswersTo(table, ttl, qs);
            && |answers| < 0x1_0000 && (forall a :: a in answers ==> Writable(a))
            && var flags, r := if answers == [] then 0x8403 else 0x8400, Respond(data, table, ttl, jumps).value;
               && ReadsQuestion(r, WordAt(data, 0), flags, |answers|, qs[0], 12 + |QuestionBytes(qs[0])|)
               && OccursAt(r, 12, EncodeDomain(qs[0].name))
               && 12 + |QuestionBytes(qs[0])| <= |r| && r[12 + |QuestionBytes(qs[0])|..] == AnswerSection(answers)
  {
    hide WordAt, ParseQuestions, AnswersTo, EncodeDomain, Split, QuestionBytes, ReadsQuestion, OccursAt, Writable,
         AnswerSection, ResponseHeader, Proper;
    var answers, q := AnswersTo(table, ttl, qs), qs[0];
    var some := if answers == [] then None else Some(answers);
    assert qs[..1] == [q] && [q][..0] == [];
    assert QuestionSection([q]) == QuestionSection([]) + QuestionBytes(q) == QuestionBytes(q);
    var h, r := ResponseHeader(WordAt(data, 0), 1, some), Respond(data, table, ttl, jumps).value;
    assert r == h + QuestionBytes(q) + AnswerSection(answers);
    ResponseReadsQuestion(r, WordAt(data, 0), q, some, AnswerSection(answers));
  }

  lemma {:induction false} AnswerPlace(list: seq<Answer>, i: nat)
    requires i < |list| && forall a :: a in list ==> Writable(a)
    ensures |AnswerSection(list[..i])| + |AnswerBytes(list[i])| <= |AnswerSection(list)|
    ensures var off := |AnswerSection(list[..i])|;
            AnswerSection(list)[off..off + |AnswerBytes(list[i])|] == AnswerBytes(list[i])
    decreases |list|
  {
    hide Writable, AnswerBytes;
    var rest := list[..|list| - 1];
    if i < |rest| {
      AnswerPlace(rest, i);
      assert rest[..i] == list[..i] && rest[i] == list[i];
      var off, n := |AnswerSection(list[..i])|, |AnswerBytes(list[i])|;
      assert AnswerSection(list)[..|AnswerSection(rest)|] == AnswerSection(rest);
      assert AnswerSection(list)[off..off + n] == AnswerSection(rest)[off..off + n];
    }
  }

  /** The owner name at off reads as `name`. */
  ghost predicate OwnedBy(r: seq<byte>, off: nat, name: Name) {
    Decode(r, off, 1) == DnsWire.Name(Split(name), off + 2)
  }

  /**
  So every answer is read as owned by the name of the first question, rightly exactly when that is the name it answers.
  */
  lemma AnswersAreOwnedByFirst(data: seq<byte>, qs: seq<Question>, table: Table, ttl: nat, jumps: nat, i: nat)
    requires IsQuery(data) && ParseQuestions(data, 12, WordAt(data, 4), jumps) == Questions(qs) && qs != []
    requires Proper(Split(qs[0].name)) && Respond(data, table, ttl, jumps).Some? && i < |AnswersTo(table, ttl, qs)|
    ensures forall a :: a in AnswersTo(table, ttl, qs) ==> Writable(a)
    ensures var answers, r := AnswersTo(table, ttl, qs), Respond(data, table, ttl, jumps).value;
            var off := 12 + |QuestionBytes(qs[0])| + |AnswerSection(answers[..i])|;
            OwnedBy(r, off, qs[0].name) && (OwnedBy(r, off, answers[i].name) <==> answers[i].name == qs[0].name)
  {
    hide OwnedBy, WordAt, ParseQuestions, AnswersTo, EncodeDomain, Split, QuestionBytes, ReadsQuestion, OccursAt,
         AnswerSection, AnswerBytes, ResponseHeader, Respond, Writable;
    RespondsWithFirst(data, qs, table, ttl, jumps);
    var answers, r := AnswersTo(table, ttl, qs), Respond(data, table, ttl, jumps).value;
    AnswerPlace(answers, i);
    PointsToFirst(answers[i]);
    var start, off := 12 + |QuestionBytes(qs[0])|, |AnswerSection(answers[..i])|;
    OwnerIsFirst(r, start, off, AnswerSection(answers), AnswerBytes(answers[i]), qs[0].name);
    OneOwner(r, start + off, qs[0].name, answers[i].name);
  }

  lemma PointsToFirst(a: Answer)
    requires Writable(a)
    ensures |AnswerBytes(a)| >= 2 && AnswerBytes(a)[0] == 0xC0 && AnswerBytes(a)[1] == 0x0C
  {
  }

  lemma OneOwner(r: seq<byte>, off: nat, name: Name, other: Name)
    requires OwnedBy(r, off, name)
    ensures OwnedBy(r, off, other) <==> other == name
  {
    hide Decode, Split, Join;
    JoinSplit(name);
    JoinSplit(other);
  }

  lemma OwnerIsFirst(r: seq<byte>, start: nat, off: nat, section: seq<byte>, bytes: seq<byte>, name: Name)
    requires start <= |r| && r[start..] == section && off + |bytes| <= |section| && section[off..off + |bytes|] == bytes
    requires |bytes| >= 2 && bytes[0] == 0xC0 && bytes[1] == 0x0C
    requires Proper(Split(name)) && OccursAt(r, 12, EncodeDomain(name))
    ensures OwnedBy(r, start + off, name)
  {
    hide WordAt, EncodeDomain, Split, OccursAt, Proper, Decode;
    StartsWithPointer(r, start, off, section, bytes);
    PointerDecode(r, start + off, 12, name, 1);
  }

  lemma StartsWithPointer(r: seq<byte>, start: nat, off: nat, section: seq<byte>, bytes: seq<byte>)
    requires start <= |r| && r[start..] == section && off + |bytes| <= |section| && section[off..off + |bytes|] == bytes
    requires |bytes| >= 2 && bytes[0] == 0xC0 && bytes[1] == 0x0C
    ensures start + off + 1 < |r| && WordAt(r, start + off) == 0xC00C
  {
    assert r[start + off] == section[off] == bytes[0] && r[start + off + 1] == section[off + 1] == bytes[1];
  }

  // ---------------------------------------------------------------- names as they are written

  /** Text in ASCII. */
  function Text(s: string): (r: seq<byte>)
    requires forall i :: 0 <= i < |s| ==> s[i] as int < 128
  {
    seq(|s|, i requires 0 <= i < |s| => s[i] as int)
  }

  lemma SuffixIsWritten()
    ensures SUFFIX == Text(".in-addr.arpa")
  {
  }

  /** The reverse name of an address has its octets in reverse order, under in-addr.arpa (section 3.5 of RFC 1035). */
  lemma PtrNameIsReversed(a: byte, b: byte, c: byte, d: byte)
    ensures IpToPtrName(AddressText([a, b, c, d])) == AddressText([d, c, b, a]) + SUFFIX
    ensures PtrNameToIp(AddressText([d, c, b, a]) + SUFFIX) == AddressText([a, b, c, d])
  {
    OctetRoundTrip(a);
    OctetRoundTrip(b);
    OctetRoundTrip(c);
    OctetRoundTrip(d);
    hide OctetText;
    var ls := [OctetText(a), OctetText(b), OctetText(c), OctetText(d)];
    assert AllDotFree(ls);
    SplitJoin(ls);
    ReversedElement(ls, 0);
    ReversedElement(ls, 1);
    ReversedElement(ls, 2);
    ReversedElement(ls, 3);
    assert Reverse(ls) == [OctetText(d), OctetText(c), OctetText(b), OctetText(a)];
    PtrNameRoundTrip(AddressText([a, b, c, d]));
  }

  lemma AddressIsWritten()
    ensures AddressText([192, 168, 1, 20]) == Text("192.168.1.20") && AddressText([0, 9, 10, 255]) == Text("0.9.10.255")
  {
    assert [OctetText(192), OctetText(168), OctetText(1), OctetText(20)][1..] ==
           [OctetText(168), OctetText(1), OctetText(20)];
    assert [OctetText(168), OctetText(1), OctetText(20)][1..] == [OctetText(1), OctetText(20)];
    assert [OctetText(1), OctetText(20)][1..] == [OctetText(20)];
    assert [OctetText(0), OctetText(9), OctetText(10), OctetText(255)][1..] ==
           [OctetText(9), OctetText(10), OctetText(255)];
    assert [OctetText(9), OctetText(10), OctetText(255)][1..] == [OctetText(10), OctetText(255)];
    assert [OctetText(10), OctetText(255)][1..] == [OctetText(255)];
  }

  /** A PTR question is looked up by its name in reverse, also when the name is not under in-addr.arpa. */
  lemma PlainNameIsReversed(name: Name)
    requires |name| < |SUFFIX| || name[|name| - |SUFFIX|..] != SUFFIX
    ensures PtrNameToIp(name) == Join(Reverse(Split(name)))
  {
  }
}
