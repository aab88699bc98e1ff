/** Answering a query: the parsing and answering part of `handle_dns`, and `_build_response`, of dns_server.py. */
module DnsResponse {
  import opened Wrappers
  import opened Bytes
  import opened DnsRecords
  import opened DnsWire

  const QTYPE_A: Word := 1
  const QTYPE_PTR: Word := 12
  const QCLASS_IN: Word := 1

  datatype Question = Question(name: Name, qtype: Word, qclass: Word)
  datatype Answer = Answer(name: Name, atype: Word, ttl: nat, rdata: Name)

  /** Both sides of a record are text here; addresses are dotted quads. */
  type Table = Records<Name>

  // ---------------------------------------------------------------- dotted quads

  function Digit(d: nat): byte
    requires d < 10
  {
    48 + d
  }

  /** One octet as `inet_ntoa` prints it. */
  function OctetText(b: byte): Label {
    if b < 10 then [Digit(b)]
    else if b < 100 then [Digit(b / 10), Digit(b % 10)]
    else [Digit(b / 100), Digit(b / 10 % 10), Digit(b % 10)]
  }

  function DigitValue(c: byte): Option<nat> {
    if 48 <= c <= 57 then Some((c as int) - 48) else None
  }

  /** The number a digit string of up to three digits spells. */
  function Spelled(l: Label): Option<nat> {
    if |l| == 0 || |l| > 3 then None
    else
      var last := DigitValue(l[|l| - 1]);
      if |l| == 1 then last
      else
        var before := Spelled(l[..|l| - 1]);
        if last.Some? && before.Some? then Some(10 * before.value + last.value) else None
  }

  /** An octet in decimal. A leading zero would announce octal to the C library; such text is refused here. */
  function ParseOctet(l: Label): Option<byte> {
    var n := Spelled(l);
    if n.Some? && n.value < 256 && (|l| == 1 || l[0] != 48) then Some(n.value) else None
  }

  lemma SpelledOne(d: nat)
    requires d < 10
    ensures Spelled([Digit(d)]) == Some(d)
  {
  }

  lemma SpelledSnoc(l: Label, d: nat)
    requires 1 <= |l| <= 2 && d < 10 && Spelled(l).Some?
    ensures Spelled(l + [Digit(d)]) == Some(10 * Spelled(l).value + d)
  {
    assert (l + [Digit(d)])[..|l|] == l;
  }

  lemma OctetHasNoDot(b: byte)
    ensures DotFree(OctetText(b))
  {
    assert forall c :: c in OctetText(b) ==> 48 <= c <= 57;
  }

  lemma TwoDigits(n: nat)
    requires n < 100
    ensures Spelled([Digit(n / 10), Digit(n % 10)]) == Some(n)
  {
    SpelledOne(n / 10);
    SpelledSnoc([Digit(n / 10)], n % 10);
    assert [Digit(n / 10)] + [Digit(n % 10)] == [Digit(n / 10), Digit(n % 10)];
  }

  lemma ThreeDigits(n: nat)
    requires n < 1000
    ensures Spelled([Digit(n / 100), Digit(n / 10 % 10), Digit(n % 10)]) == Some(n)
  {
    hide Spelled;
    TwoDigits(n / 10);
    assert n / 10 / 10 == n / 100;
    var l := [Digit(n / 100), Digit(n / 10 % 10)];
    SpelledSnoc(l, n % 10);
    assert l + [Digit(n % 10)] == [Digit(n / 100), Digit(n / 10 % 10), Digit(n % 10)];
  }

  lemma OctetRoundTrip(b: byte)
    ensures ParseOctet(OctetText(b)) == Some(b) && DotFree(OctetText(b))
  {
    hide Spelled, DotFree;
    OctetHasNoDot(b);
    if b < 10 {
      SpelledOne(b);
    } else if b < 100 {
      TwoDigits(b);
    } else {
      ThreeDigits(b);
    }
  }

  function AddressText(ip: seq<byte>): Name
    requires |ip| == 4
  {
    Join([OctetText(ip[0]), OctetText(ip[1]), OctetText(ip[2]), OctetText(ip[3])])
  }

  /** `socket.inet_aton` on dotted quads as `inet_ntoa` prints them. */
  function InetAton(text: Name): (r: Option<seq<byte>>)
    ensures r.Some? ==> |r.value| == 4
  {
    var ls := Split(text);
    if |ls| != 4 then None
    else
      var a, b, c, d := ParseOctet(ls[0]), ParseOctet(ls[1]), ParseOctet(ls[2]), ParseOctet(ls[3]);
      if a.Some? && b.Some? && c.Some? && d.Some? then Some([a.value, b.value, c.value, d.value]) else None
  }

  /** An address survives printing and parsing. */
  lemma AddressRoundTrip(ip: seq<byte>)
    requires |ip| == 4
    ensures InetAton(AddressText(ip)) == Some(ip)
  {
    var ls := [OctetText(ip[0]), OctetText(ip[1]), OctetText(ip[2]), OctetText(ip[3])];
    OctetRoundTrip(ip[0]);
    OctetRoundTrip(ip[1]);
    OctetRoundTrip(ip[2]);
    OctetRoundTrip(ip[3]);
    hide OctetText, ParseOctet;
    assert AllDotFree(ls);
    SplitJoin(ls);
    assert Split(AddressText(ip)) == ls;
    assert [ip[0], ip[1], ip[2], ip[3]] == ip;
  }

  lemma SpelledDigits(l: Label)
    requires Spelled(l).Some?
    ensures 1 <= |l| <= 3 && forall i :: 0 <= i < |l| ==> 48 <= l[i] <= 57
    ensures |l| == 1 ==> Spelled(l) == Some((l[0] as int) - 48)
    ensures |l| == 2 ==> Spelled(l) == Some(10 * ((l[0] as int) - 48) + (l[1] as int) - 48)
    ensures |l| == 3 ==> Spelled(l) == Some(100 * ((l[0] as int) - 48) + 10 * ((l[1] as int) - 48) + (l[2] as int) - 48)
  {
    if |l| > 1 {
      SpelledDigits(l[..|l| - 1]);
    }
  }

  lemma DigitsOf(a: nat, b: nat, c: nat)
    requires a < 10 && b < 10 && c < 10
    ensures var n := 100 * a + 10 * b + c; n / 100 == a && n / 10 == 10 * a + b && n / 10 % 10 == b && n % 10 == c
  {
  }

  /** Every octet that is accepted is the printed form of its value. */
  lemma ParsedOctetIsPrinted(l: Label)
    requires ParseOctet(l).Some?
    ensures l == OctetText(ParseOctet(l).value)
  {
    SpelledDigits(l);
    hide Spelled;
    if |l| == 2 {
      DigitsOf(0, l[0] - 48, l[1] - 48);
    } else if |l| == 3 {
      DigitsOf(l[0] - 48, l[1] - 48, l[2] - 48);
    }
  }

  /** Parsing accepts exactly the printed addresses, and inverts printing. */
  lemma InetAtonIff(text: Name, ip: seq<byte>)
    requires |ip| == 4
    ensures InetAton(text) == Some(ip) <==> text == AddressText(ip)
  {
    AddressRoundTrip(ip);
    if InetAton(text) == Some(ip) {
      var ls := Split(text);
      JoinSplit(text);
      hide Split;
      ParsedOctetIsPrinted(ls[0]);
      ParsedOctetIsPrinted(ls[1]);
      ParsedOctetIsPrinted(ls[2]);
      ParsedOctetIsPrinted(ls[3]);
      hide ParseOctet, OctetText;
      assert ls == [ls[0], ls[1], ls[2], ls[3]];
    }
  }

  // ---------------------------------------------------------------- building a response

  function W(v: Word): (r: seq<byte>)
    ensures |r| == 2
  {
    [v / 256, v % 256]
  }

  function U32(v: nat): seq<byte>
    requires v < 0x1_0000_0000
  {
    W(v / 0x1_0000) + W(v % 0x1_0000)
  }

  /** The record data after the length field; None where Python raises or writes nothing. */
  function RData(a: Answer): Option<seq<byte>> {
    if a.atype == QTYPE_A then InetAton(a.rdata)
    else if a.atype == QTYPE_PTR && Encodable(Split(a.rdata)) && |EncodeDomain(a.rdata)| < 0x1_0000
      then Some(EncodeDomain(a.rdata))
    else None
  }

  predicate Writable(a: Answer) {
    a.ttl < 0x1_0000_0000 && (a.atype == QTYPE_A || a.atype == QTYPE_PTR) && RData(a).Some? &&
      |RData(a).value| < 0x1_0000
  }

  /** The owner name is always a pointer to offset 12, whatever the answer's own name. */
  function AnswerBytes(a: Answer): seq<byte>
    requires Writable(a)
  {
    [0xC0, 0x0C] + W(a.atype) + W(QCLASS_IN) + U32(a.ttl) + W(|RData(a).value|) + RData(a).value
  }

  function QuestionBytes(q: Question): seq<byte>
    requires Encodable(Split(q.name))
  {
    EncodeDomain(q.name) + W(q.qtype) + W(q.qclass)
  }

  predicate AllWritable(qs: seq<Question>, answers: seq<Answer>) {
    && |qs| < 0x1_0000 && |answers| < 0x1_0000
    && (forall q :: q in qs ==> Encodable(Split(q.name)))
    && (forall a :: a in answers ==> Writable(a))
  }

  function QuestionSection(qs: seq<Question>): seq<byte>
    requires forall q :: q in qs ==> Encodable(Split(q.name))
  {
    if qs == [] then [] else QuestionSection(qs[..|qs| - 1]) + QuestionBytes(qs[|qs| - 1])
  }

  function AnswerSection(answers: seq<Answer>): seq<byte>
    requires forall a :: a in answers ==> Writable(a)
  {
    if answers == [] then [] else AnswerSection(answers[..|answers| - 1]) + AnswerBytes(answers[|answers| - 1])
  }

  /** QR and AA, with NXDOMAIN when there are no answers. */
  function ResponseHeader(txid: Word, qd: Word, answers: Option<seq<Answer>>): (h: seq<byte>)
    requires answers.Some? ==> |answers.value| < 0x1_0000
    ensures |h| == 12
  {
    W(txid) + W(if answers.None? then 0x8403 else 0x8400) + W(qd)
      + W(if answers.None? then 0 else |answers.value|) + W(0) + W(0)
  }

  function Response(txid: Word, qs: seq<Question>, answers: Option<seq<Answer>>): Option<seq<byte>> {
    var list := if answers.Some? then answers.value else [];
    if AllWritable(qs, list) then Some(ResponseHeader(txid, |qs|, answers) + QuestionSection(qs) + AnswerSection(list))
      else None
  }

  method BuildResponse(txid: Word, qs: seq<Question>, answers: Option<seq<Answer>>) returns (r: Option<seq<byte>>)
    ensures r == Response(txid, qs, answers)
  {
    hide Writable, AnswerBytes, Encodable, QuestionBytes, ResponseHeader;
    var list := if answers.Some? then answers.value else [];
    r := None;
    if !AllWritable(qs, list) {
      return;
    }
    var qsection, asection := [], [];
    var i := 0;
    while i < |qs|
      invariant 0 <= i <= |qs| && qsection == QuestionSection(qs[..i])
    {
      assert qs[..i + 1][..i] == qs[..i];
      qsection := qsection + QuestionBytes(qs[i]);
      i := i + 1;
    }
    i := 0;
    while i < |list|
      invariant 0 <= i <= |list| && asection == AnswerSection(list[..i])
    {
      assert list[..i + 1][..i] == list[..i];
      asection := asection + AnswerBytes(list[i]);
      i := i + 1;
    }
    assert qs[..|qs|] == qs && list[..|list|] == list;
    r := Some(ResponseHeader(txid, |qs|, answers) + qsection + asection);
  }

  // ---------------------------------------------------------------- parsing and answering a query

  datatype Parsed = Questions(qs: seq<Question>) | ParseRaises | Diverges

  function ParseQuestions(data: seq<byte>, off: nat, count: nat, jumps: nat): Parsed
    decreases count
  {
    if count == 0 || off >= |data| then Questions([])
    else
      match Decode(data, off, jumps)
      case Unfinished => Diverges
      case Raises => ParseRaises
      case Name(ls, next) =>
        if next + 4 > |data| then Questions([])
        else
          match ParseQuestions(data, next + 4, count - 1, jumps)
          case Questions(rest) => Questions([Question(Join(ls), WordAt(data, next), WordAt(data, next + 2))] + rest)
          case other => other
  }

  /** The record that answers a question, if any. */
  function AnswerTo(table: Table, ttl: nat, q: Question): Option<Answer> {
    if q.qclass != QCLASS_IN then None
    else if q.qtype == QTYPE_A && q.name in table.a then Some(Answer(q.name, QTYPE_A, ttl, table.a[q.name]))
    else if q.qtype == QTYPE_PTR && PtrNameToIp(q.name) in table.ptr then
      Some(Answer(q.name, QTYPE_PTR, ttl, table.ptr[PtrNameToIp(q.name)]))
    else None
  }

  function AnswersTo(table: Table, ttl: nat, qs: seq<Question>): seq<Answer> {
    if qs == [] then []
    else
      var last := AnswerTo(table, ttl, qs[|qs| - 1]);
      AnswersTo(table, ttl, qs[..|qs| - 1]) + (if last.Some? then [last.value] else [])
  }

  predicate IsQuery(data: seq<byte>) {
    |data| >= 12 && WordAt(data, 2) < 0x8000 && WordAt(data, 2) / 0x800 % 16 == 0
  }

  /** The whole response to a DNS payload, None when nothing is sent. */
  function Respond(data: seq<byte>, table: Table, ttl: nat, jumps: nat): Option<seq<byte>> {
    if !IsQuery(data) then None
    else
      match ParseQuestions(data, 12, WordAt(data, 4), jumps)
      case Questions(qs) =>
        var answers := AnswersTo(table, ttl, qs);
        Response(WordAt(data, 0), qs[..if qs == [] then 0 else 1], if answers == [] then None else Some(answers))
      case _ => None
  }

  /** The DNS payload of a frame: after the Ethernet, IP and UDP headers. */
  function Payload(msg: seq<byte>): Option<seq<byte>> {
    if |msg| < 15 then None
    else
      var off := 14 + (msg[14] % 16) * 4 + 8;
      if |msg| < off + 12 then None else Some(msg[off..])
  }

  /** What is sent in answer to a frame. */
  function AnswerFrame(msg: seq<byte>, table: Table, ttl: nat, jumps: nat): Option<seq<byte>> {
    var d := Payload(msg);
    if d.None? then None else Respond(d.value, table, ttl, jumps)
  }

  method HandleDns(msg: seq<byte>, table: Table, ttl: nat, ghost jumps: nat) returns (resp: Option<seq<byte>>)
    requires var d := Payload(msg);
             d.Some? && IsQuery(d.value) ==> !ParseQuestions(d.value, 12, WordAt(d.value, 4), jumps).Diverges?
    ensures resp == AnswerFrame(msg, table, ttl, jumps)
  {
    hide Response, AnswerTo, ParseQuestions, Payload, WordAt;
    resp := None;
    var payload := Payload(msg);
    if payload.None? || !IsQuery(payload.value) {
      return;
    }
    var data := payload.value;
    var questions := ReadQuestions(data, WordAt(data, 4), jumps);
    if questions.None? {
      return;
    }
    var qs := questions.value;
    var answers, found := [], false;
    var i := 0;
    while i < |qs|
      invariant 0 <= i <= |qs| && answers == AnswersTo(table, ttl, qs[..i]) && found == (answers != [])
    {
      assert qs[..i + 1][..i] == qs[..i];
      var answer := AnswerTo(table, ttl, qs[i]);
      if answer.Some? {
        answers, found := answers + [answer.value], true;
      }
      i := i + 1;
    }
    assert qs[..|qs|] == qs;
    resp := BuildResponse(WordAt(data, 0), qs[..if qs == [] then 0 else 1], if found then Some(answers) else None);
  }

  /** Put questions already read before those still to come. */
  function After(qs: seq<Question>, p: Parsed): Parsed {
    match p
    case Questions(rest) => Questions(qs + rest)
    case other => other
  }

  lemma ParseStep(data: seq<byte>, off: nat, count: nat, jumps: nat)
    ensures count == 0 || off >= |data| ==> ParseQuestions(data, off, count, jumps) == Questions([])
    ensures count > 0 && off < |data| ==>
      ParseQuestions(data, off, count, jumps) ==
        match Decode(data, off, jumps)
        case Unfinished => Diverges
        case Raises => ParseRaises
        case Name(ls, next) =>
          if next + 4 > |data| then Questions([])
          else After([Question(Join(ls), WordAt(data, next), WordAt(data, next + 2))],
                     ParseQuestions(data, next + 4, count - 1, jumps))
  {
  }

  method ReadQuestions(data: seq<byte>, qdcount: nat, ghost jumps: nat) returns (r: Option<seq<Question>>)
    requires !ParseQuestions(data, 12, qdcount, jumps).Diverges?
    ensures match ParseQuestions(data, 12, qdcount, jumps)
            case Questions(qs) => r == Some(qs)
            case _ => r == None
  {
    hide Decode, Join, WordAt, ParseQuestions;
    var offset: nat, qs: seq<Question> := 12, [];
    var left := qdcount;
    while left > 0 && offset < |data|
      invariant ParseQuestions(data, 12, qdcount, jumps) == After(qs, ParseQuestions(data, offset, left, jumps))
    {
      ParseStep(data, offset, left, jumps);
      var decoded := DecodeDomain(data, offset, jumps);
      if decoded.None? {
        return None;
      }
      var (qname, next) := decoded.value;
      if next + 4 > |data| {
        assert qs + [] == qs;
        return Some(qs);
      }
      var q := Question(qname, WordAt(data, next), WordAt(data, next + 2));
      AfterOne(qs, q, ParseQuestions(data, next + 4, left - 1, jumps));
      qs := qs + [q];
      offset, left := next + 4, left - 1;
    }
    ParseStep(data, offset, left, jumps);
    assert qs + [] == qs;
    r := Some(qs);
  }

  lemma AfterOne(qs: seq<Question>, q: Question, p: Parsed)
    ensures After(qs, After([q], p)) == After(qs + [q], p)
  {
  }

  // ---------------------------------------------------------------- round trip

  /** A query with a single question: any identifier, flags of a standard query, anything after the question. */
  predicate SingleQuery(data: seq<byte>, q: Question) {
    && IsQuery(data) && WordAt(data, 4) == 1
    && Proper(Split(q.name)) && q.qclass == QCLASS_IN && (q.qtype == QTYPE_A || q.qtype == QTYPE_PTR)
    && OccursAt(data, 12, QuestionBytes(q))
  }

  /** The stored record that answers the question, as text. */
  function StoredRecord(table: Table, q: Question): Option<Name> {
    if q.qtype == QTYPE_A then
      if q.name in table.a then Some(table.a[q.name]) else None
    else
      if PtrNameToIp(q.name) in table.ptr then Some(table.ptr[PtrNameToIp(q.name)]) else None
  }

  /** A record that can be put on the wire: a dotted quad, or a proper host name of less than 64 KiB. */
  predicate Sendable(qtype: Word, rdata: Name) {
    if qtype == QTYPE_A then InetAton(rdata).Some? else Proper(Split(rdata)) && |EncodeDomain(rdata)| < 0x1_0000
  }

  /** Reading r with the decoder gives back the identifier and the question, up to `end`. */
  predicate ReadsQuestion(r: seq<byte>, txid: Word, flags: Word, answers: Word, q: Question, end: nat) {
    && 12 <= end - 4 && end <= |r|
    && WordAt(r, 0) == txid && WordAt(r, 2) == flags && WordAt(r, 4) == 1 && WordAt(r, 6) == answers
    && WordAt(r, 8) == 0 && WordAt(r, 10) == 0
    && Decode(r, 12, 0) == DnsWire.Name(Split(q.name), end - 4)
    && WordAt(r, end - 4) == q.qtype && WordAt(r, end - 2) == q.qclass
  }

  /** Reading r at `off` gives one answer, to the end of r: its owner name, type, class, TTL, and record. */
  predicate ReadsAnswer(r: seq<byte>, off: nat, q: Question, ttl: nat, rdata: Name) {
    && off + 12 <= |r|
    && Decode(r, off, 1) == DnsWire.Name(Split(q.name), off + 2) && WordAt(r, off) == 0xC00C
    && WordAt(r, off + 2) == q.qtype && WordAt(r, off + 4) == QCLASS_IN
    && WordAt(r, off + 6) as int * 0x1_0000 + WordAt(r, off + 8) == ttl
    && WordAt(r, off + 10) == |r| - (off + 12)
    && (if q.qtype == QTYPE_A then InetAton(rdata) == Some(r[off + 12..])
        else Decode(r, off + 12, 0) == DnsWire.Name(Split(rdata), |r|))
  }

  lemma OccursParts(data: seq<byte>, off: nat, a: seq<byte>, b: seq<byte>)
    requires OccursAt(data, off, a + b)
    ensures OccursAt(data, off, a) && OccursAt(data, off + |a|, b)
  {
    forall j | 0 <= j < |a + b| ensures data[off + j] == (a + b)[j] {
      assert data[off..off + |a + b|][j] == (a + b)[j];
    }
    forall j | 0 <= j < |a| ensures data[off + j] == a[j] {
      assert data[off + j] == (a + b)[j];
    }
    forall j | 0 <= j < |b| ensures data[off + |a| + j] == b[j] {
      assert data[off + (|a| + j)] == (a + b)[|a| + j];
    }
  }

  lemma WordOccurs(data: seq<byte>, off: nat, v: Word)
    requires OccursAt(data, off, W(v))
    ensures off + 1 < |data| && WordAt(data, off) == v
  {
  }

  /** The parts of a question that occurs in a message. */
  lemma QuestionOccurs(data: seq<byte>, off: nat, q: Question)
    requires Encodable(Split(q.name)) && OccursAt(data, off, QuestionBytes(q))
    ensures var end := off + |EncodeDomain(q.name)|;
            && OccursAt(data, off, EncodeDomain(q.name)) && end + 4 <= |data|
            && WordAt(data, end) == q.qtype && WordAt(data, end + 2) == q.qclass
  {
    hide EncodeDomain, OccursAt, WordAt, Encodable, Split;
    var enc := EncodeDomain(q.name);
    assert QuestionBytes(q) == enc + (W(q.qtype) + W(q.qclass));
    OccursParts(data, off, enc, W(q.qtype) + W(q.qclass));
    OccursParts(data, off + |enc|, W(q.qtype), W(q.qclass));
    WordOccurs(data, off + |enc|, q.qtype);
    WordOccurs(data, off + |enc| + 2, q.qclass);
  }

  lemma QuestionParsed(data: seq<byte>, q: Question, jumps: nat)
    requires Proper(Split(q.name)) && OccursAt(data, 12, QuestionBytes(q))
    ensures ParseQuestions(data, 12, 1, jumps) == Questions([q])
  {
    hide Decode, WordAt, EncodeDomain, Split, OccursAt, QuestionBytes;
    QuestionOccurs(data, 12, q);
    EncodeDecode(data, 12, q.name, jumps);
    assert ParseQuestions(data, 12 + |EncodeDomain(q.name)| + 4, 0, jumps) == Questions([]);
  }

  /** The response, part by part. */
  lemma ResponseLayout(txid: Word, q: Question, answers: Option<seq<Answer>>)
    requires Encodable(Split(q.name))
    requires answers.Some? ==> |answers.value| == 1 && Writable(answers.value[0])
    ensures var a := if answers.Some? then AnswerBytes(answers.value[0]) else [];
            Response(txid, [q], answers) == Some(ResponseHeader(txid, 1, answers) + QuestionBytes(q) + a)
  {
    hide ResponseHeader, QuestionBytes, AnswerBytes, Encodable, Writable;
    assert [q][..0] == [];
    assert QuestionSection([q]) == QuestionSection([q][..0]) + QuestionBytes(q) == QuestionBytes(q);
    if answers.Some? {
      var list := answers.value;
      assert list[..0] == [] && list == [list[0]];
      assert AnswerSection(list) == AnswerSection(list[..0]) + AnswerBytes(list[0]) == AnswerBytes(list[0]);
    }
  }

  lemma WordRead(r: seq<byte>, pre: seq<byte>, v: Word, post: seq<byte>)
    requires r == pre + W(v) + post
    ensures |pre| + 1 < |r| && WordAt(r, |pre|) == v
  {
  }

  lemma HeaderReads(r: seq<byte>, txid: Word, answers: Option<seq<Answer>>, rest: seq<byte>)
    requires answers.Some? ==> |answers.value| < 0x1_0000
    requires r == ResponseHeader(txid, 1, answers) + rest
    ensures |r| >= 12 && WordAt(r, 0) == txid && WordAt(r, 2) == (if answers.None? then 0x8403 else 0x8400) &&
            WordAt(r, 4) == 1
    ensures WordAt(r, 6) == (if answers.None? then 0 else |answers.value|) && WordAt(r, 8) == 0 && WordAt(r, 10) == 0
  {
    hide W, WordAt;
    var a, d: Word := if answers.None? then 0x8403 else 0x8400, if answers.None? then 0 else |answers.value|;
    WordRead(r, [], txid, W(a) + W(1) + W(d) + W(0) + W(0) + rest);
    WordRead(r, W(txid), a, W(1) + W(d) + W(0) + W(0) + rest);
    WordRead(r, W(txid) + W(a), 1, W(d) + W(0) + W(0) + rest);
    WordRead(r, W(txid) + W(a) + W(1), d, W(0) + W(0) + rest);
    WordRead(r, W(txid) + W(a) + W(1) + W(d), 0, W(0) + rest);
    WordRead(r, W(txid) + W(a) + W(1) + W(d) + W(0), 0, rest);
  }

  /** The question section of any response reads back as the question. */
  lemma ResponseReadsQuestion(r: seq<byte>, txid: Word, q: Question, answers: Option<seq<Answer>>, tail: seq<byte>)
    requires Proper(Split(q.name)) && (answers.Some? ==> |answers.value| < 0x1_0000)
    requires r == ResponseHeader(txid, 1, answers) + QuestionBytes(q) + tail
    ensures OccursAt(r, 12, EncodeDomain(q.name))
    ensures var flags, count: Word := if answers.None? then 0x8403 else 0x8400, if answers.None? then 0
      else |answers.value|;
            ReadsQuestion(r, txid, flags, count, q, 12 + |QuestionBytes(q)|)
  {
    hide ResponseHeader, WordAt, EncodeDomain, Split, Decode;
    var h := ResponseHeader(txid, 1, answers);
    assert r == h + (QuestionBytes(q) + tail);
    HeaderReads(r, txid, answers, QuestionBytes(q) + tail);
    assert r[12..12 + |QuestionBytes(q)|] == QuestionBytes(q);
    QuestionOccurs(r, 12, q);
    EncodeDecode(r, 12, q.name, 0);
  }

  /** The fixed fields of an answer that ends the message. */
  lemma AnswerFields(r: seq<byte>, off: nat, a: Answer)
    requires Writable(a) && off <= |r| && r[off..] == AnswerBytes(a)
    ensures |r| == off + 12 + |RData(a).value| && r[off + 12..] == RData(a).value
    ensures WordAt(r, off) == 0xC00C && WordAt(r, off + 2) == a.atype && WordAt(r, off + 4) == QCLASS_IN
    ensures WordAt(r, off + 6) as int * 0x1_0000 + WordAt(r, off + 8) == a.ttl
    ensures WordAt(r, off + 10) == |RData(a).value|
  {
  }

  lemma PtrDataReads(r: seq<byte>, off: nat, host: Name)
    requires off <= |r| && Proper(Split(host)) && r[off..] == EncodeDomain(host)
    ensures Decode(r, off, 0) == DnsWire.Name(Split(host), |r|)
  {
    hide EncodeDomain, Split, Decode;
    assert r[off..off + |EncodeDomain(host)|] == r[off..];
    EncodeDecode(r, off, host, 0);
  }

  lemma ResponseReadsAnswer(r: seq<byte>, off: nat, q: Question, a: Answer)
    requires Proper(Split(q.name)) && OccursAt(r, 12, EncodeDomain(q.name))
    requires Writable(a) && off <= |r| && r[off..] == AnswerBytes(a) && a.atype == q.qtype && Sendable(q.qtype, a.rdata)
    ensures ReadsAnswer(r, off, q, a.ttl, a.rdata)
  {
    hide WordAt, EncodeDomain, Split, Decode, AnswerBytes, OccursAt;
    AnswerFields(r, off, a);
    PointerDecode(r, off, 12, q.name, 1);
    if a.atype == QTYPE_PTR {
      PtrDataReads(r, off + 12, a.rdata);
    }
  }

  lemma RespondToOne(data: seq<byte>, q: Question, table: Table, ttl: nat, jumps: nat)
    requires SingleQuery(data, q)
    ensures var stored := StoredRecord(table, q);
            var answers := if stored.Some? then Some([Answer(q.name, q.qtype, ttl, stored.value)]) else None;
            Respond(data, table, ttl, jumps) == Response(WordAt(data, 0), [q], answers)
  {
    hide Split, QuestionBytes, OccursAt, Response, ParseQuestions, WordAt, PtrNameToIp;
    QuestionParsed(data, q, jumps);
    var one := AnswerTo(table, ttl, q);
    assert [q][..1] == [q] && [q][..0] == [];
    assert AnswersTo(table, ttl, [q][..0]) == [];
    assert AnswersTo(table, ttl, [q]) == AnswersTo(table, ttl, [q][..0]) + (if one.Some? then [one.value] else []);
    assert AnswersTo(table, ttl, [q]) == if one.Some? then [one.value] else [];
  }

  /**
  Every single-question A or PTR query is answered: the response reads back as the same identifier and
  question, with the stored record as its one answer, or NXDOMAIN and no answer when there is none.
  */
  lemma ResponseRoundTrip(data: seq<byte>, q: Question, table: Table, ttl: nat, jumps: nat)
    requires SingleQuery(data, q) && ttl < 0x1_0000_0000
    requires StoredRecord(table, q).Some? ==> Sendable(q.qtype, StoredRecord(table, q).value)
    ensures var stored, r := StoredRecord(table, q), Respond(data, table, ttl, jumps);
            r.Some? &&
            var end := 12 + |QuestionBytes(q)|;
            if stored.Some? then
              ReadsQuestion(r.value, WordAt(data, 0), 0x8400, 1, q, end) &&
                ReadsAnswer(r.value, end, q, ttl, stored.value)
            else
              ReadsQuestion(r.value, WordAt(data, 0), 0x8403, 0, q, end) && |r.value| == end
  {
    hide WordAt, EncodeDomain, Split, Decode, AnswerBytes, QuestionBytes, OccursAt, InetAton,
         ResponseHeader, ReadsQuestion, ReadsAnswer, Response, Respond, StoredRecord;
    RespondToOne(data, q, table, ttl, jumps);
    var stored := StoredRecord(table, q);
    var answers := if stored.Some? then Some([Answer(q.name, q.qtype, ttl, stored.value)]) else None;
    ResponseLayout(WordAt(data, 0), q, answers);
    var h, qb := ResponseHeader(WordAt(data, 0), 1, answers), QuestionBytes(q);
    var tail := if answers.Some? then AnswerBytes(answers.value[0]) else [];
    var r := h + qb + tail;
    ResponseReadsQuestion(r, WordAt(data, 0), q, answers, tail);
    if stored.Some? {
      assert r[12 + |qb|..] == tail;
      ResponseReadsAnswer(r, 12 + |qb|, q, answers.value[0]);
    }
  }
}
