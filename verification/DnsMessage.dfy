/** In-cluster DNS answers (`handle_query` up to forwarding), against section 4.1 of RFC 1035. */
module DnsMessage {
  import opened Prelude
  import opened DnsName

  const TTL := 30
  const TYPE_A := 1
  const TYPE_CNAME := 5
  const TYPE_AAAA := 28
  const TYPE_ANY := 255
  const CLASS_IN := 1
  const NXDOMAIN := 3

  // ---------------------------------------------------------------------
  // Encoders
  // ---------------------------------------------------------------------

  function U16(n: nat): (r: bytes)
    ensures |r| == 2
  {
    [n / 256 % 256, n % 256]
  }

  function U32(n: nat): (r: bytes)
    ensures |r| == 4
  {
    U16(n / 65536) + U16(n % 65536)
  }

  function Get16(buf: bytes, p: nat): nat
    requires p + 2 <= |buf|
  {
    buf[p] as int * 256 + buf[p + 1]
  }

  type Ip4 = s: bytes | |s| == 4 witness [0, 0, 0, 0]

  /** Everything after the owner name of a resource record. */
  function RecordTail(rtype: nat, rdata: bytes): bytes {
    U16(rtype) + U16(CLASS_IN) + U32(TTL) + U16(|rdata|) + rdata
  }

  function ARecord(name: bytes, ip: Ip4): bytes {
    Encoded(name) + RecordTail(TYPE_A, ip)
  }

  function CnameRecord(name: bytes, target: bytes): bytes {
    Encoded(name) + RecordTail(TYPE_CNAME, Encoded(target))
  }

  /** The reply's flag word: QR and RD always, RA when the query asked for recursion. */
  function Flags(rd: bool, rcode: nat): nat {
    0x8000 + (if rd then 0x0180 else 0x0100) + rcode % 16
  }

  function ResponseHeader(id: nat, rd: bool, answers: nat, rcode: nat): (r: bytes)
    ensures |r| == 12
  {
    U16(id) + U16(Flags(rd, rcode)) + U16(1) + U16(answers) + U16(0) + U16(0)
  }

  function Response(id: nat, rd: bool, question: bytes, answers: seq<bytes>, rcode: nat): bytes {
    ResponseHeader(id, rd, |answers|, rcode) + question + Concat(answers)
  }

  method MakeResponse(id: nat, rd: bool, question: bytes, answers: seq<bytes>, rcode: nat) returns (out: bytes)
    ensures out == Response(id, rd, question, answers, rcode)
  {
    out := U16(id);
    out := out + U16(Flags(rd, rcode));
    out := out + U16(1);
    out := out + U16(|answers|);
    out := out + U16(0);
    out := out + U16(0);
    out := out + question;
    for i := 0 to |answers|
      invariant out + Concat(answers[i..]) == Response(id, rd, question, answers, rcode)
    {
      assert answers[i..][1..] == answers[i + 1..];
      assert out + Concat(answers[i..]) == out + answers[i] + Concat(answers[i + 1..]);
      out := out + answers[i];
    }
  }

  // ---------------------------------------------------------------------
  // Resolution
  // ---------------------------------------------------------------------

  datatype ServiceSpec = NoSpec | ExternalName(target: Option<bytes>) | Cluster(ip: Option<bytes>)

  datatype Service = Service(name: bytes, namespace: bytes, spec: ServiceSpec)

  datatype Resolution = ClusterIP(text: bytes) | External(target: bytes) | Unresolved

  /** What the server knows: host records of the ingress, the services in store order, the cluster
      domain, and the library reader of dotted IPv4 addresses. */
  datatype Zone = Zone(records: map<bytes, Ip4>, services: seq<Service>, domain: bytes, ipv4: bytes -> Option<Ip4>)

  const SVC: bytes := [115, 118, 99]
  const NONE: bytes := [78, 111, 110, 101]

  function TrimDots(name: bytes): bytes {
    if name != [] && name[|name| - 1] == DOT then TrimDots(name[..|name| - 1]) else name
  }

  /** `parse_service_name` on the parts of the name and of the cluster domain: the service and, where the name gives
      one, the namespace. */
  function PartsName(parts: seq<bytes>, zone: seq<bytes>): Option<(bytes, Option<bytes>)>
    requires parts != [] && zone != []
  {
    var n, dn := |parts|, |zone|;
    var inZone := n >= dn && parts[n - dn..] == zone;
    if n >= dn + 3 && inZone && parts[n - dn - 1] == SVC then
      Some((Join(parts[..n - dn - 2]), Some(parts[n - dn - 2])))
    else if n >= dn + 2 && inZone && parts[n - dn - 1] == SVC then Some((parts[0], None))
    else if n >= dn + 1 && inZone then Some((parts[0], None))
    else if n == 1 then Some((parts[0], None))
    else if n == 2 then Some((parts[0], Some(parts[1])))
    else None
  }

  function ServiceName(name: bytes, domain: bytes): Option<(bytes, Option<bytes>)> {
    PartsName(SplitDots(name), SplitDots(domain))
  }

  predicate Named(s: Service, svc: bytes, ns: Option<bytes>) {
    s.name == svc && (ns.Some? ==> s.namespace == ns.value) && !s.spec.NoSpec?
  }

  function Offered(s: Service): Resolution
    requires !s.spec.NoSpec?
  {
    match s.spec
    case ExternalName(Some(t)) => if t == [] then Unresolved else External(t)
    case ExternalName(None) => Unresolved
    case Cluster(ip) =>
      if ip.None? || ip.value == NONE || ip.value == [] then Unresolved else ClusterIP(ip.value)
  }

  function FindService(services: seq<Service>, svc: bytes, ns: Option<bytes>): Resolution {
    if services == [] then Unresolved
    else if Named(services[0], svc, ns) then Offered(services[0])
    else FindService(services[1..], svc, ns)
  }

  function ResolveService(name: bytes, z: Zone): Resolution {
    match ServiceName(TrimDots(name), z.domain)
    case None => Unresolved
    case Some((svc, ns)) => FindService(z.services, svc, ns)
  }

  /** What the zone has to say about a name. */
  datatype Finding = Address(ip: Ip4) | Alias(target: bytes) | Broken | Unknown

  function Find(name: bytes, z: Zone): Finding {
    if TrimDots(name) in z.records then Address(z.records[TrimDots(name)])
    else match ResolveService(name, z)
      case ClusterIP(text) => (match z.ipv4(text) case Some(ip) => Address(ip) case None => Broken)
      case External(target) => (match z.ipv4(target) case Some(ip) => Address(ip) case None => Alias(target))
      case Unresolved => Unknown
  }

  // ---------------------------------------------------------------------
  // handle_query
  // ---------------------------------------------------------------------

  datatype Handling = Silent | Answer(packet: bytes) | Forward

  function HandleQuery(query: bytes, z: Zone, text: LabelText): Handling {
    if |query| < 12 then Silent else
    var id := Get16(query, 0);
    var flags := Get16(query, 2);
    if flags >= 0x8000 || Get16(query, 4) == 0 then Silent else
    var rd := flags / 256 % 2 == 1;
    var parsed := NameAt(query, text, 12);
    ParseNameMeaning(query, text, 12);
    if parsed.name.None? || parsed.offset + 4 > |query| then Silent else
    Respond(id, rd, parsed.name.value, Get16(query, parsed.offset), query[12..parsed.offset + 4], z)
  }

  /** The answering part, once the question has been read. */
  function Respond(id: nat, rd: bool, name: bytes, qtype: nat, question: bytes, z: Zone): Handling {
    if qtype !in {TYPE_A, TYPE_AAAA, TYPE_ANY} then Forward
    else match Find(name, z)
      case Address(ip) => Answer(Response(id, rd, question, if qtype == TYPE_AAAA then [] else [ARecord(name, ip)], 0))
      case Alias(target) =>
        Answer(Response(id, rd, question, if qtype == TYPE_AAAA then [] else [CnameRecord(name, target)], 0))
      case Broken => Silent
      case Unknown => if rd then Forward else Answer(Response(id, rd, question, [], NXDOMAIN))
  }

  // ---------------------------------------------------------------------
  // An independent reader of messages, section 4.1 of RFC 1035
  // ---------------------------------------------------------------------

  datatype Read<T> = At(item: T, next: nat)

  /** Labels of at most 63 bytes; a pointer must go back before `bound`. */
  function RfcName(buf: bytes, pos: nat, bound: nat): Option<Read<seq<bytes>>>
    decreases bound, |buf| - pos
  {
    if pos >= |buf| then None
    else if buf[pos] == 0 then Some(At([], pos + 1))
    else if buf[pos] <= 63 then
      var next := pos + 1 + buf[pos];
      if next > |buf| then None
      else match RfcName(buf, next, bound)
        case None => None
        case Some(At(rest, end)) => Some(At([buf[pos + 1..next]] + rest, end))
    else if buf[pos] >= 192 && pos + 1 < |buf| && Target(buf, pos) < bound then
      match RfcName(buf, Target(buf, pos), Target(buf, pos))
      case None => None
      case Some(At(labels, _)) => Some(At(labels, pos + 2))
    else None
  }

  datatype Question = Question(labels: seq<bytes>, qtype: nat, qclass: nat)

  datatype Record = Record(labels: seq<bytes>, rtype: nat, rclass: nat, ttl: nat, rdata: bytes)

  datatype Message = Message(id: nat, response: bool, opcode: nat, recursionDesired: bool, recursionAvailable: bool,
                             rcode: nat, questions: seq<Question>, answers: seq<Record>, authorities: nat,
                                 additionals: nat)

  function RfcQuestion(buf: bytes, pos: nat): Option<Read<Question>> {
    match RfcName(buf, pos, pos)
    case None => None
    case Some(At(labels, p)) =>
      if p + 4 > |buf| then None else Some(At(Question(labels, Get16(buf, p), Get16(buf, p + 2)), p + 4))
  }

  function RfcQuestions(buf: bytes, pos: nat, count: nat): Option<Read<seq<Question>>>
    decreases count, pos
  {
    if count == 0 then Some(At([], pos))
    else match RfcQuestion(buf, pos)
      case None => None
      case Some(At(q, p)) =>
        match RfcQuestions(buf, p, count - 1)
        case None => None
        case Some(At(qs, end)) => Some(At([q] + qs, end))
  }

  function RfcRecord(buf: bytes, pos: nat): Option<Read<Record>> {
    match RfcName(buf, pos, pos)
    case None => None
    case Some(At(labels, p)) =>
      if p + 10 > |buf| then None else
      var end := p + 10 + Get16(buf, p + 8);
      if end > |buf| then None
      else Some(At(Record(labels, Get16(buf, p), Get16(buf, p + 2), Get16(buf, p + 4) * 65536 + Get16(buf, p + 6),
                          buf[p + 10..end]), end))
  }

  function RfcRecords(buf: bytes, pos: nat, count: nat): Option<Read<seq<Record>>>
    decreases count, pos
  {
    if count == 0 then Some(At([], pos))
    else match RfcRecord(buf, pos)
      case None => None
      case Some(At(r, p)) =>
        match RfcRecords(buf, p, count - 1)
        case None => None
        case Some(At(rs, end)) => Some(At([r] + rs, end))
  }

  /** A whole message: nothing may be left over. */
  function RfcMessage(buf: bytes): Option<Message> {
    if |buf| < 12 then None else
    var f := Get16(buf, 2);
    match RfcQuestions(buf, 12, Get16(buf, 4))
    case None => None
    case Some(At(questions, p)) =>
      match RfcRecords(buf, p, Get16(buf, 6))
      case None => None
      case Some(At(answers, end)) =>
        if end != |buf| then None
        else Some(Message(Get16(buf, 0), f >= 0x8000, f / 0x800 % 16, f / 0x100 % 2 == 1, f / 0x80 % 2 == 1, f % 16,
                          questions, answers, Get16(buf, 8), Get16(buf, 10)))
  }

  // ---------------------------------------------------------------------
  // Reading back what the encoders write
  // ---------------------------------------------------------------------

  /** Labels as RFC 1035 allows them. */
  ghost predicate Short(labels: seq<bytes>) {
    labels == [] || (1 <= |labels[0]| <= 63 && Short(labels[1..]))
  }

  lemma RfcFirstLabel(buf: bytes, pos: nat, bound: nat, l: bytes, rest: bytes)
    requires 1 <= |l| <= 63 && HoldsAt(buf, pos, [|l|] + l + rest)
    ensures HoldsAt(buf, pos + 1 + |l|, rest)
    ensures RfcName(buf, pos, bound) ==
            match RfcName(buf, pos + 1 + |l|, bound)
            case None => None
            case Some(At(ls, end)) => Some(At([l] + ls, end))
  {
    FirstLabel(buf, pos, l, rest);
  }

  lemma {:induction false} RfcNameIsRead(buf: bytes, pos: nat, bound: nat, labels: seq<bytes>)
    requires Short(labels) && HoldsAt(buf, pos, WireLabels(labels) + [0])
    ensures RfcName(buf, pos, bound) == Some(At(labels, pos + |WireLabels(labels)| + 1))
    decreases |labels|
  {
    if labels == [] {
      assert HoldsAt(buf, pos, [0]) by { assert WireLabels(labels) + [0] == [0]; }
      assert buf[pos] == buf[pos..pos + 1][0];
    } else {
      var l, rest := labels[0], WireLabels(labels[1..]) + [0];
      assert WireLabels(labels) + [0] == [|l|] + l + rest;
      RfcFirstLabel(buf, pos, bound, l, rest);
      RfcNameIsRead(buf, pos + 1 + |l|, bound, labels[1..]);
      assert labels == [l] + labels[1..];
    }
  }

  lemma Get16IsRead(buf: bytes, pos: nat, n: nat)
    requires n < 65536 && HoldsAt(buf, pos, U16(n))
    ensures Get16(buf, pos) == n
  {
    assert buf[pos] == buf[pos..pos + 2][0] && buf[pos + 1] == buf[pos..pos + 2][1];
  }

  /** The wire form of a question. */
  function QuestionBytes(labels: seq<bytes>, qtype: nat, qclass: nat): bytes {
    (WireLabels(labels) + [0]) + (U16(qtype) + U16(qclass))
  }

  lemma QuestionIsRead(buf: bytes, pos: nat, labels: seq<bytes>, qtype: nat, qclass: nat)
    requires Short(labels) && qtype < 65536 && qclass < 65536
    requires HoldsAt(buf, pos, QuestionBytes(labels, qtype, qclass))
    ensures RfcQuestions(buf, pos, 1)
            == Some(At([Question(labels, qtype, qclass)], pos + |QuestionBytes(labels, qtype, qclass)|))
  {
    var p := pos + |WireLabels(labels)| + 1;
    HoldsSplit(buf, pos, WireLabels(labels) + [0], U16(qtype) + U16(qclass));
    HoldsSplit(buf, p, U16(qtype), U16(qclass));
    RfcNameIsRead(buf, pos, pos, labels);
    Get16IsRead(buf, p, qtype);
    Get16IsRead(buf, p + 2, qclass);
    OneQuestion(buf, pos, Question(labels, qtype, qclass), p + 4);
  }

  lemma OneQuestion(buf: bytes, pos: nat, q: Question, next: nat)
    requires RfcQuestion(buf, pos) == Some(At(q, next))
    ensures RfcQuestions(buf, pos, 1) == Some(At([q], next))
  {
    assert RfcQuestions(buf, next, 0) == Some(At([], next));
    assert [q] + [] == [q];
  }

  lemma OneRecord(buf: bytes, pos: nat, r: Record, next: nat)
    requires RfcRecord(buf, pos) == Some(At(r, next))
    ensures RfcRecords(buf, pos, 1) == Some(At([r], next))
  {
    assert RfcRecords(buf, next, 0) == Some(At([], next));
    assert [r] + [] == [r];
  }

  lemma RecordTailIsRead(buf: bytes, p: nat, rtype: nat, rdata: bytes)
    requires rtype < 65536 && |rdata| < 65536 && HoldsAt(buf, p, RecordTail(rtype, rdata))
    ensures p + 10 + |rdata| <= |buf| && buf[p + 10..p + 10 + |rdata|] == rdata
    ensures Get16(buf, p) == rtype && Get16(buf, p + 2) == CLASS_IN
    ensures Get16(buf, p + 4) == 0 && Get16(buf, p + 6) == TTL && Get16(buf, p + 8) == |rdata|
  {
    HoldsSplit(buf, p, U16(rtype) + U16(CLASS_IN) + U32(TTL) + U16(|rdata|), rdata);
    HoldsSplit(buf, p, U16(rtype) + U16(CLASS_IN) + U32(TTL), U16(|rdata|));
    HoldsSplit(buf, p, U16(rtype) + U16(CLASS_IN), U32(TTL));
    HoldsSplit(buf, p, U16(rtype), U16(CLASS_IN));
    HoldsSplit(buf, p + 4, U16(0), U16(TTL));
    Get16IsRead(buf, p, rtype);
    Get16IsRead(buf, p + 2, CLASS_IN);
    Get16IsRead(buf, p + 4, 0);
    Get16IsRead(buf, p + 6, TTL);
    Get16IsRead(buf, p + 8, |rdata|);
  }

  lemma RecordIsRead(buf: bytes, pos: nat, labels: seq<bytes>, rtype: nat, rdata: bytes)
    requires Short(labels) && rtype < 65536 && |rdata| < 65536
    requires HoldsAt(buf, pos, (WireLabels(labels) + [0]) + RecordTail(rtype, rdata))
    ensures RfcRecords(buf, pos, 1) ==
            Some(At([Record(labels, rtype, CLASS_IN, TTL, rdata)],
                    pos + |(WireLabels(labels) + [0]) + RecordTail(rtype, rdata)|))
  {
    var p := pos + |WireLabels(labels)| + 1;
    HoldsSplit(buf, pos, WireLabels(labels) + [0], RecordTail(rtype, rdata));
    RecordPartsAreRead(buf, pos, labels, p, rtype, rdata);
  }

  lemma RecordPartsAreRead(buf: bytes, pos: nat, labels: seq<bytes>, p: nat, rtype: nat, rdata: bytes)
    requires Short(labels) && rtype < 65536 && |rdata| < 65536 && p == pos + |WireLabels(labels)| + 1
    requires HoldsAt(buf, pos, WireLabels(labels) + [0]) && HoldsAt(buf, p, RecordTail(rtype, rdata))
    ensures RfcRecords(buf, pos, 1) == Some(At([Record(labels, rtype, CLASS_IN, TTL, rdata)], p + 10 + |rdata|))
  {
    RfcNameIsRead(buf, pos, pos, labels);
    RecordTailIsRead(buf, p, rtype, rdata);
    RecordFromParts(buf, pos, labels, p, rtype, rdata);
  }

  lemma RecordFromParts(buf: bytes, pos: nat, labels: seq<bytes>, p: nat, rtype: nat, rdata: bytes)
    requires RfcName(buf, pos, pos) == Some(At(labels, p))
    requires p + 10 + |rdata| <= |buf| && buf[p + 10..p + 10 + |rdata|] == rdata
    requires Get16(buf, p) == rtype && Get16(buf, p + 2) == CLASS_IN
    requires Get16(buf, p + 4) == 0 && Get16(buf, p + 6) == TTL && Get16(buf, p + 8) == |rdata|
    ensures RfcRecords(buf, pos, 1) == Some(At([Record(labels, rtype, CLASS_IN, TTL, rdata)], p + 10 + |rdata|))
  {
    OneRecord(buf, pos, Record(labels, rtype, CLASS_IN, TTL, rdata), p + 10 + |rdata|);
  }

  lemma HeaderIsRead(buf: bytes, id: nat, rd: bool, answers: nat, rcode: nat)
    requires id < 65536 && answers < 65536 && HoldsAt(buf, 0, ResponseHeader(id, rd, answers, rcode))
    ensures |buf| >= 12 && Get16(buf, 0) == id && Get16(buf, 2) == Flags(rd, rcode)
    ensures Get16(buf, 4) == 1 && Get16(buf, 6) == answers && Get16(buf, 8) == 0 && Get16(buf, 10) == 0
  {
    var f := Flags(rd, rcode);
    HoldsSplit(buf, 0, U16(id) + U16(f) + U16(1) + U16(answers) + U16(0), U16(0));
    HoldsSplit(buf, 0, U16(id) + U16(f) + U16(1) + U16(answers), U16(0));
    HoldsSplit(buf, 0, U16(id) + U16(f) + U16(1), U16(answers));
    HoldsSplit(buf, 0, U16(id) + U16(f), U16(1));
    HoldsSplit(buf, 0, U16(id), U16(f));
    Get16IsRead(buf, 0, id);
    Get16IsRead(buf, 2, f);
    Get16IsRead(buf, 4, 1);
    Get16IsRead(buf, 6, answers);
    Get16IsRead(buf, 8, 0);
    Get16IsRead(buf, 10, 0);
  }

  /** The message a reply stands for. RD is set whatever the query said; RA repeats the query's RD. */
  function Meant(id: nat, rd: bool, rcode: nat, q: Question, answers: seq<Record>): Message {
    Message(id, true, 0, true, rd, rcode % 16, [q], answers, 0, 0)
  }

  lemma FlagsAreRead(rd: bool, rcode: nat)
    ensures var f := Flags(rd, rcode);
            && f >= 0x8000 && f / 0x800 % 16 == 0 && f / 0x100 % 2 == 1
            && (f / 0x80 % 2 == 1) == rd && f % 16 == rcode % 16
  {
    var f, r := Flags(rd, rcode), rcode % 16;
    if rd {
      assert f == 0x8180 + r;
      assert f / 0x800 == 16 && f / 0x100 == 129 && f / 0x80 == 259;
    } else {
      assert f == 0x8100 + r;
      assert f / 0x800 == 16 && f / 0x100 == 129 && f / 0x80 == 258;
    }
  }

  lemma AssembledMessage(buf: bytes, id: nat, rd: bool, rcode: nat, q: Question, mid: nat, answers: seq<Record>)
    requires |buf| >= 12 && Get16(buf, 0) == id && Get16(buf, 2) == Flags(rd, rcode)
    requires Get16(buf, 4) == 1 && Get16(buf, 6) == |answers| && Get16(buf, 8) == 0 && Get16(buf, 10) == 0
    requires RfcQuestions(buf, 12, 1) == Some(At([q], mid))
    requires RfcRecords(buf, mid, |answers|) == Some(At(answers, |buf|))
    ensures RfcMessage(buf) == Some(Meant(id, rd, rcode, q, answers))
  {
    FlagsAreRead(rd, rcode);
  }

  lemma ConcatOne(part: bytes)
    ensures Concat([part]) == part
  {
    var one: seq<bytes> := [part];
    assert one[1..] == [];
    assert Concat(one) == part + Concat(one[1..]);
  }

  /** A reply without records reads back. */
  lemma EmptyResponseIsRead(id: nat, rd: bool, labels: seq<bytes>, qtype: nat, qclass: nat, rcode: nat)
    requires id < 65536 && Short(labels) && qtype < 65536 && qclass < 65536
    ensures RfcMessage(Response(id, rd, QuestionBytes(labels, qtype, qclass), [], rcode))
            == Some(Meant(id, rd, rcode, Question(labels, qtype, qclass), []))
  {
    var header, question := ResponseHeader(id, rd, 0, rcode), QuestionBytes(labels, qtype, qclass);
    var buf := Response(id, rd, question, [], rcode);
    assert buf == header + question + [];
    HoldsConcat(header, question, []);
    EmptyLayoutIsRead(buf, id, rd, labels, qtype, qclass, rcode);
  }

  lemma EmptyLayoutIsRead(buf: bytes, id: nat, rd: bool, labels: seq<bytes>, qtype: nat, qclass: nat, rcode: nat)
    requires id < 65536 && Short(labels) && qtype < 65536 && qclass < 65536
    requires var question := QuestionBytes(labels, qtype, qclass);
             HoldsAt(buf, 0, ResponseHeader(id, rd, 0, rcode)) && HoldsAt(buf, 12, question)
             && |buf| == 12 + |question|
    ensures RfcMessage(buf) == Some(Meant(id, rd, rcode, Question(labels, qtype, qclass), []))
  {
    HeaderIsRead(buf, id, rd, 0, rcode);
    QuestionIsRead(buf, 12, labels, qtype, qclass);
    AssembledMessage(buf, id, rd, rcode, Question(labels, qtype, qclass), |buf|, []);
  }

  /** A reply with one record reads back: the question, and the record's owner, type and data. */
  lemma RecordResponseIsRead(id: nat, rd: bool, labels: seq<bytes>, qtype: nat, qclass: nat,
                             owner: seq<bytes>, rtype: nat, rdata: bytes)
    requires id < 65536 && Short(labels) && qtype < 65536 && qclass < 65536
    requires Short(owner) && rtype < 65536 && |rdata| < 65536
    ensures RfcMessage(Response(id, rd, QuestionBytes(labels, qtype, qclass),
                                [(WireLabels(owner) + [0]) + RecordTail(rtype, rdata)], 0))
            == Some(Meant(id, rd, 0, Question(labels, qtype, qclass), [Record(owner, rtype, CLASS_IN, TTL, rdata)]))
  {
    var header, question := ResponseHeader(id, rd, 1, 0), QuestionBytes(labels, qtype, qclass);
    var record := (WireLabels(owner) + [0]) + RecordTail(rtype, rdata);
    var buf := Response(id, rd, question, [record], 0);
    assert buf == header + question + record by { ConcatOne(record); }
    HoldsConcat(header, question, record);
    RecordLayoutIsRead(buf, id, rd, labels, qtype, qclass, owner, rtype, rdata);
  }

  lemma RecordLayoutIsRead(buf: bytes, id: nat, rd: bool, labels: seq<bytes>, qtype: nat, qclass: nat,
                           owner: seq<bytes>, rtype: nat, rdata: bytes)
    requires id < 65536 && Short(labels) && qtype < 65536 && qclass < 65536
    requires Short(owner) && rtype < 65536 && |rdata| < 65536
    requires var question, record := QuestionBytes(labels, qtype, qclass),
             (WireLabels(owner) + [0]) + RecordTail(rtype, rdata);
             && HoldsAt(buf, 0, ResponseHeader(id, rd, 1, 0)) && HoldsAt(buf, 12, question)
             && HoldsAt(buf, 12 + |question|, record) && |buf| == 12 + |question| + |record|
    ensures RfcMessage(buf)
            == Some(Meant(id, rd, 0, Question(labels, qtype, qclass), [Record(owner, rtype, CLASS_IN, TTL, rdata)]))
  {
    HeaderIsRead(buf, id, rd, 1, 0);
    QuestionIsRead(buf, 12, labels, qtype, qclass);
    var mid := 12 + |QuestionBytes(labels, qtype, qclass)|;
    RecordIsRead(buf, mid, owner, rtype, rdata);
    AssembledWithRecord(buf, id, rd, Question(labels, qtype, qclass), mid, Record(owner, rtype, CLASS_IN, TTL, rdata));
  }

  lemma AssembledWithRecord(buf: bytes, id: nat, rd: bool, q: Question, mid: nat, r: Record)
    requires |buf| >= 12 && Get16(buf, 0) == id && Get16(buf, 2) == Flags(rd, 0)
    requires Get16(buf, 4) == 1 && Get16(buf, 6) == 1 && Get16(buf, 8) == 0 && Get16(buf, 10) == 0
    requires RfcQuestions(buf, 12, 1) == Some(At([q], mid))
    requires RfcRecords(buf, mid, 1) == Some(At([r], |buf|))
    ensures RfcMessage(buf) == Some(Meant(id, rd, 0, q, [r]))
  {
    assert |[r]| == 1;
    AssembledMessage(buf, id, rd, 0, q, mid, [r]);
  }

  // ---------------------------------------------------------------------
  // Main result
  // ---------------------------------------------------------------------

  /** Query labels as the property takes them: ASCII, without dots, within RFC 1035's length. */
  ghost predicate QueryLabels(labels: seq<bytes>) {
    |labels| <= 50 && forall l | l in labels :: 1 <= |l| <= 63 && IsAscii(l) && DotFree(l)
  }

  lemma {:induction false} QueryLabelsAreShort(labels: seq<bytes>)
    requires forall l | l in labels :: 1 <= |l| <= 63
    ensures Short(labels)
  {
    if labels != [] {
      assert labels[0] in labels;
      QueryLabelsAreShort(labels[1..]);
    }
  }

  lemma LowerKeepsShape(l: bytes)
    requires DotFree(l)
    ensures DotFree(Lower(l))
  {
  }

  lemma OwnerLabels(labels: seq<bytes>)
    requires QueryLabels(labels)
    ensures Short(labels) && Short(LowerAll(labels))
    ensures Encoded(Join(LowerAll(labels))) == WireLabels(LowerAll(labels)) + [0]
  {
    var owner := LowerAll(labels);
    forall l | l in owner ensures DotFree(l) && 1 <= |l| <= 63 {
      var i :| 0 <= i < |owner| && owner[i] == l;
      assert labels[i] in labels;
      LowerKeepsShape(labels[i]);
    }
    QueryLabelsAreShort(labels);
    QueryLabelsAreShort(owner);
    EncodedIsWireForm(owner);
  }

  /** A query: header, one uncompressed question, and anything behind it. */
  function Query(header: bytes, labels: seq<bytes>, qtype: nat, qclass: nat, tail: bytes): bytes {
    header + QuestionBytes(labels, qtype, qclass) + tail
  }

  lemma QuestionIsParsed(header: bytes, labels: seq<bytes>, qtype: nat, qclass: nat, tail: bytes, text: LabelText)
    requires |header| == 12 && QueryLabels(labels) && qtype < 65536 && qclass < 65536 && LowersAscii(text)
    ensures var query := Query(header, labels, qtype, qclass, tail);
            var end := 12 + |WireLabels(labels)| + 1;
            && NameAt(query, text, 12) == NameRead(Some(Join(LowerAll(labels))), end)
            && end + 4 <= |query| && Get16(query, end) == qtype
            && query[12..end + 4] == QuestionBytes(labels, qtype, qclass)
  {
    HoldsConcat(header, QuestionBytes(labels, qtype, qclass), tail);
    QuestionAtIsParsed(Query(header, labels, qtype, qclass, tail), |header|, labels, qtype, qclass, text);
  }

  lemma QuestionAtIsParsed(buf: bytes, pos: nat, labels: seq<bytes>, qtype: nat, qclass: nat, text: LabelText)
    requires HoldsAt(buf, pos, QuestionBytes(labels, qtype, qclass))
    requires QueryLabels(labels) && qtype < 65536 && qclass < 65536 && LowersAscii(text)
    ensures var end := pos + |WireLabels(labels)| + 1;
            && NameAt(buf, text, pos) == NameRead(Some(Join(LowerAll(labels))), end)
            && end + 4 <= |buf| && Get16(buf, end) == qtype
            && buf[pos..end + 4] == QuestionBytes(labels, qtype, qclass)
  {
    QuestionFieldsAreRead(buf, pos, labels, qtype, qclass);
    EncodedIsWireForm(labels);
    NameRoundTrip(buf, text, pos, labels);
  }

  lemma QuestionFieldsAreRead(buf: bytes, pos: nat, labels: seq<bytes>, qtype: nat, qclass: nat)
    requires HoldsAt(buf, pos, QuestionBytes(labels, qtype, qclass)) && qtype < 65536 && qclass < 65536
    ensures var end := pos + |WireLabels(labels)| + 1;
            && HoldsAt(buf, pos, WireLabels(labels) + [0])
            && end + 4 <= |buf| && Get16(buf, end) == qtype
            && buf[pos..end + 4] == QuestionBytes(labels, qtype, qclass)
  {
    var end := pos + |WireLabels(labels)| + 1;
    HoldsSplit(buf, pos, WireLabels(labels) + [0], U16(qtype) + U16(qclass));
    HoldsSplit(buf, end, U16(qtype), U16(qclass));
    Get16IsRead(buf, end, qtype);
  }

  /** The records a finding calls for. */
  function Records(f: Finding, owner: seq<bytes>, qtype: nat): seq<Record> {
    if qtype == TYPE_AAAA then []
    else match f
      case Address(ip) => [Record(owner, TYPE_A, CLASS_IN, TTL, ip)]
      case Alias(target) => [Record(owner, TYPE_CNAME, CLASS_IN, TTL, Encoded(target))]
      case _ => []
  }

  lemma ResponseIsRead(id: nat, rd: bool, labels: seq<bytes>, qtype: nat, qclass: nat, f: Finding)
    requires id < 65536 && QueryLabels(labels) && qtype < 65536 && qclass < 65536
    requires f.Alias? ==> |Encoded(f.target)| < 65536
    requires f.Address? || f.Alias?
    ensures var name := Join(LowerAll(labels));
            var record := if f.Address? then ARecord(name, f.ip) else CnameRecord(name, f.target);
            RfcMessage(Response(id, rd, QuestionBytes(labels, qtype, qclass),
                                if qtype == TYPE_AAAA then [] else [record], 0))
            == Some(Meant(id, rd, 0, Question(labels, qtype, qclass), Records(f, LowerAll(labels), qtype)))
  {
    OwnerLabels(labels);
    if qtype == TYPE_AAAA {
      EmptyResponseIsRead(id, rd, labels, qtype, qclass, 0);
    } else {
      match f
      case Address(ip) => RecordResponseIsRead(id, rd, labels, qtype, qclass, LowerAll(labels), TYPE_A, ip);
      case Alias(target) =>
        RecordResponseIsRead(id, rd, labels, qtype, qclass, LowerAll(labels), TYPE_CNAME, Encoded(target));
    }
  }

  /** Every in-cluster answer is read back by an independent decoder with the query's identifier, the
      question itself, the record the zone holds for the lower-cased name, and nothing left over.
      When there is no answer, the query was forwarded or the zone's address text was unreadable. */
  lemma AnswerIsReadBack(header: bytes, labels: seq<bytes>, qtype: nat, qclass: nat, tail: bytes, z: Zone,
                         text: LabelText)
    requires |header| == 12 && Get16(header, 2) < 0x8000 && Get16(header, 4) > 0
    requires QueryLabels(labels) && qtype < 65536 && qclass < 65536 && LowersAscii(text)
    requires var f := Find(Join(LowerAll(labels)), z); f.Alias? ==> |Encoded(f.target)| < 65536
    ensures var f := Find(Join(LowerAll(labels)), z);
            var rd := Get16(header, 2) / 256 % 2 == 1;
            match HandleQuery(Query(header, labels, qtype, qclass, tail), z, text)
            case Answer(packet) =>
              qtype in {TYPE_A, TYPE_AAAA, TYPE_ANY} && !f.Broken? && !(f.Unknown? && rd)
              && RfcMessage(packet) == Some(Meant(Get16(header, 0), rd, if f.Unknown? then NXDOMAIN else 0,
                                               Question(labels, qtype, qclass), Records(f, LowerAll(labels), qtype)))
            case Forward => qtype !in {TYPE_A, TYPE_AAAA, TYPE_ANY} || (f.Unknown? && rd)
            case Silent => qtype in {TYPE_A, TYPE_AAAA, TYPE_ANY} && f.Broken?
  {
    HandlingIsResponding(header, labels, qtype, qclass, tail, z, text);
    RespondIsReadBack(Get16(header, 0), Get16(header, 2) / 256 % 2 == 1, labels, qtype, qclass, z);
  }

  lemma QueryHeader(header: bytes, rest: bytes, k: nat)
    requires |header| == 12 && k + 2 <= 12
    ensures Get16(header + rest, k) == Get16(header, k)
  {
  }

  /** A query with one uncompressed question is answered from that question. */
  lemma HandlingIsResponding(header: bytes, labels: seq<bytes>, qtype: nat, qclass: nat, tail: bytes, z: Zone,
                             text: LabelText)
    requires |header| == 12 && Get16(header, 2) < 0x8000 && Get16(header, 4) > 0
    requires QueryLabels(labels) && qtype < 65536 && qclass < 65536 && LowersAscii(text)
    ensures HandleQuery(Query(header, labels, qtype, qclass, tail), z, text)
            == Respond(Get16(header, 0), Get16(header, 2) / 256 % 2 == 1, Join(LowerAll(labels)), qtype,
                       QuestionBytes(labels, qtype, qclass), z)
  {
    var query, rest := Query(header, labels, qtype, qclass, tail), QuestionBytes(labels, qtype, qclass) + tail;
    assert query == header + rest;
    QueryHeader(header, rest, 0);
    QueryHeader(header, rest, 2);
    QueryHeader(header, rest, 4);
    QuestionIsParsed(header, labels, qtype, qclass, tail, text);
  }

  lemma RespondIsReadBack(id: nat, rd: bool, labels: seq<bytes>, qtype: nat, qclass: nat, z: Zone)
    requires id < 65536 && QueryLabels(labels) && qtype < 65536 && qclass < 65536
    requires var f := Find(Join(LowerAll(labels)), z); f.Alias? ==> |Encoded(f.target)| < 65536
    ensures var f := Find(Join(LowerAll(labels)), z);
            match Respond(id, rd, Join(LowerAll(labels)), qtype, QuestionBytes(labels, qtype, qclass), z)
            case Answer(packet) =>
              qtype in {TYPE_A, TYPE_AAAA, TYPE_ANY} && !f.Broken? && !(f.Unknown? && rd)
              && RfcMessage(packet) == Some(Meant(id, rd, if f.Unknown? then NXDOMAIN else 0,
                                               Question(labels, qtype, qclass), Records(f, LowerAll(labels), qtype)))
            case Forward => qtype !in {TYPE_A, TYPE_AAAA, TYPE_ANY} || (f.Unknown? && rd)
            case Silent => qtype in {TYPE_A, TYPE_AAAA, TYPE_ANY} && f.Broken?
  {
    var f := Find(Join(LowerAll(labels)), z);
    if f.Address? || f.Alias? {
      ResponseIsRead(id, rd, labels, qtype, qclass, f);
    } else if f.Unknown? {
      OwnerLabels(labels);
      EmptyResponseIsRead(id, rd, labels, qtype, qclass, NXDOMAIN);
    }
  }

  /** The data of an alias record is itself a name that reads as the target's labels, wherever it stands. */
  lemma AliasDataIsTheTarget(buf: bytes, pos: nat, target: seq<bytes>)
    requires QueryLabels(target) && HoldsAt(buf, pos, Encoded(Join(target)))
    ensures RfcName(buf, pos, pos) == Some(At(target, pos + |Encoded(Join(target))|))
  {
    EncodedIsWireForm(target);
    QueryLabelsAreShort(target);
    WireNameIsRead(buf, pos, Encoded(Join(target)), target);
  }

  lemma WireNameIsRead(buf: bytes, pos: nat, wire: bytes, labels: seq<bytes>)
    requires Short(labels) && wire == WireLabels(labels) + [0] && HoldsAt(buf, pos, wire)
    ensures RfcName(buf, pos, pos) == Some(At(labels, pos + |wire|))
  {
    RfcNameIsRead(buf, pos, pos, labels);
  }

  lemma {:induction false} JoinEnds(labels: seq<bytes>)
    requires labels != [] && labels[|labels| - 1] != []
    ensures var last := labels[|labels| - 1];
            Join(labels) != [] && Join(labels)[|Join(labels)| - 1] == last[|last| - 1]
    decreases |labels|
  {
    if |labels| > 1 { JoinEnds(labels[1..]); }
  }
}
