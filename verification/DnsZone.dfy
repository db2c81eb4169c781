/** What a query is answered, told from the zone itself: a host record first, then the service that the shape of the
    name asks for. Record types, classes, codes and the time to live are given as numbers. */
module DnsZone {
  import opened Prelude
  import opened DnsName
  import opened DnsMessage

  // ---------------------------------------------------------------------
  // What a client sees
  // ---------------------------------------------------------------------

  /** A query of one uncompressed question. */
  ghost predicate IsQuery(header: bytes, labels: seq<bytes>, qtype: nat, qclass: nat) {
    && |header| == 12 && Get16(header, 2) < 0x8000 && Get16(header, 4) > 0
    && QueryLabels(labels) && qtype < 65536 && qclass < 65536
  }

  predicate WantsRecursion(header: bytes)
    requires |header| == 12
  {
    header[2] % 2 == 1
  }

  /** The reply reads, by section 4.1 of RFC 1035, as a response to the query with this code and these records. */
  ghost predicate Replies(h: Handling, header: bytes, labels: seq<bytes>, qtype: nat, qclass: nat, rcode: nat,
                          records: seq<Record>)
    requires |header| == 12
  {
    h.Answer? && RfcMessage(h.packet) ==
      Some(Message(header[0] as int * 256 + header[1], true, 0, true, WantsRecursion(header), rcode,
                   [Question(labels, qtype, qclass)], records, 0, 0))
  }

  /** One address record of type 1, class 1 and 30 seconds; none for a query of type 28. */
  ghost predicate GivesAddress(h: Handling, header: bytes, labels: seq<bytes>, qtype: nat, qclass: nat, ip: Ip4)
    requires |header| == 12
  {
    Replies(h, header, labels, qtype, qclass, 0, if qtype == 28 then [] else [Record(LowerAll(labels), 1, 1, 30, ip)])
  }

  /** One alias record of type 5 with the encoded target; none for a query of type 28. */
  ghost predicate GivesAlias(h: Handling, header: bytes, labels: seq<bytes>, qtype: nat, qclass: nat, target: bytes)
    requires |header| == 12
  {
    Replies(h, header, labels, qtype, qclass, 0,
            if qtype == 28 then [] else [Record(LowerAll(labels), 5, 1, 30, Encoded(target))])
  }

  /** Forwarded if the query asks for recursion, else answered with code 3 and no record. */
  ghost predicate Declines(h: Handling, header: bytes, labels: seq<bytes>, qtype: nat, qclass: nat)
    requires |header| == 12
  {
    if WantsRecursion(header) then h == Forward else Replies(h, header, labels, qtype, qclass, 3, [])
  }

  // ---------------------------------------------------------------------
  // The shapes of names
  // ---------------------------------------------------------------------

  /** The parts of a lower-cased name; the root has one empty part. */
  function Parts(labels: seq<bytes>): seq<bytes> {
    if labels == [] then [[]] else LowerAll(labels)
  }

  /** service.namespace.svc.domain, where the service may have several parts. */
  ghost predicate Qualified(parts: seq<bytes>, domain: seq<bytes>, svc: bytes, ns: Option<bytes>) {
    exists service: seq<bytes>, space: bytes ::
      service != [] && parts == service + [space, [115, 118, 99]] + domain && svc == Join(service) && ns == Some(space)
  }

  /** service.svc.domain */
  predicate InSvc(parts: seq<bytes>, domain: seq<bytes>, svc: bytes, ns: Option<bytes>) {
    parts == [svc, [115, 118, 99]] + domain && ns == None
  }

  /** service, perhaps followed by parts that do not end in svc, then the domain. */
  ghost predicate InDomain(parts: seq<bytes>, domain: seq<bytes>, svc: bytes, ns: Option<bytes>) {
    exists front: seq<bytes> ::
      front != [] && parts == front + domain && svc == front[0] && ns == None
      && (|front| == 1 || front[|front| - 1] != [115, 118, 99])
  }

  /** A bare service name. */
  predicate Bare(parts: seq<bytes>, svc: bytes, ns: Option<bytes>) {
    parts == [svc] && ns == None
  }

  /** service.namespace, unless the second part is the whole domain. */
  predicate WithNamespace(parts: seq<bytes>, domain: seq<bytes>, svc: bytes, ns: Option<bytes>) {
    ns.Some? && parts == [svc, ns.value] && domain != [ns.value]
  }

  ghost predicate AsksFor(parts: seq<bytes>, domain: seq<bytes>, svc: bytes, ns: Option<bytes>) {
    Qualified(parts, domain, svc, ns) || InSvc(parts, domain, svc, ns) || InDomain(parts, domain, svc, ns)
    || Bare(parts, svc, ns) || WithNamespace(parts, domain, svc, ns)
  }

  // ---------------------------------------------------------------------
  // The code's reading of names agrees
  // ---------------------------------------------------------------------

  lemma TailIs(front: seq<bytes>, zone: seq<bytes>)
    ensures (front + zone)[|front|..] == zone && (front + zone)[..|front|] == front
  {
  }

  lemma QualifiedIsRead(parts: seq<bytes>, zone: seq<bytes>, service: seq<bytes>, space: bytes)
    requires zone != [] && service != [] && parts == service + [space, SVC] + zone
    ensures PartsName(parts, zone) == Some((Join(service), Some(space)))
  {
    var front := service + [space, SVC];
    TailIs(front, zone);
    assert parts[..|service|] == service && parts[|service|] == space && parts[|service| + 1] == SVC;
  }

  lemma DomainIsRead(parts: seq<bytes>, zone: seq<bytes>, front: seq<bytes>)
    requires zone != [] && front != [] && parts == front + zone
    requires |front| <= 2 || front[|front| - 1] != SVC
    ensures PartsName(parts, zone) == Some((front[0], None))
  {
    TailIs(front, zone);
    assert parts[|front| - 1] == front[|front| - 1];
  }

  /** A name that asks for a service is read so. */
  lemma AskedIsRead(parts: seq<bytes>, zone: seq<bytes>, svc: bytes, ns: Option<bytes>)
    requires parts != [] && zone != [] && AsksFor(parts, zone, svc, ns)
    ensures PartsName(parts, zone) == Some((svc, ns))
  {
    if Qualified(parts, zone, svc, ns) {
      var service: seq<bytes>, space: bytes :|
        service != [] && parts == service + [space, [115, 118, 99]] + zone && svc == Join(service) && ns == Some(space);
      QualifiedIsRead(parts, zone, service, space);
    } else if InSvc(parts, zone, svc, ns) {
      DomainIsRead(parts, zone, [svc, SVC]);
    } else if InDomain(parts, zone, svc, ns) {
      var front: seq<bytes> :| front != [] && parts == front + zone && svc == front[0] && ns == None
                               && (|front| == 1 || front[|front| - 1] != [115, 118, 99]);
      DomainIsRead(parts, zone, front);
    }
  }

  lemma FrontAsks(front: seq<bytes>, zone: seq<bytes>, svc: bytes, ns: Option<bytes>)
    requires zone != [] && front != [] && PartsName(front + zone, zone) == Some((svc, ns))
    ensures AsksFor(front + zone, zone, svc, ns)
  {
    var k := |front|;
    TailIs(front, zone);
    assert (front + zone)[k - 1] == front[k - 1];
    if k >= 3 && front[k - 1] == SVC {
      var service, space := front[..k - 2], front[k - 2];
      assert front == service + [space, SVC];
      QualifiedIsRead(front + zone, zone, service, space);
      assert Qualified(front + zone, zone, svc, ns);
    } else if k == 2 && front[1] == SVC {
      DomainIsRead(front + zone, zone, front);
      assert front == [svc, SVC];
    } else {
      DomainIsRead(front + zone, zone, front);
      assert InDomain(front + zone, zone, svc, ns);
    }
  }

  /** A name that is read as a service asks for it. */
  lemma ReadIsAsked(parts: seq<bytes>, zone: seq<bytes>, svc: bytes, ns: Option<bytes>)
    requires parts != [] && zone != [] && PartsName(parts, zone) == Some((svc, ns))
    ensures AsksFor(parts, zone, svc, ns)
  {
    var n, dn := |parts|, |zone|;
    if n > dn && parts[n - dn..] == zone {
      var front := parts[..n - dn];
      assert parts == front + zone;
      FrontAsks(front, zone, svc, ns);
    } else {
      ShortAsks(parts, zone, svc, ns);
    }
  }

  lemma ShortAsks(parts: seq<bytes>, zone: seq<bytes>, svc: bytes, ns: Option<bytes>)
    requires parts != [] && zone != [] && PartsName(parts, zone) == Some((svc, ns))
    requires |parts| <= |zone| || parts[|parts| - |zone|..] != zone
    ensures AsksFor(parts, zone, svc, ns)
  {
    if |parts| == 1 {
      assert parts == [svc];
    } else {
      assert parts == [svc, ns.value] && parts[1..] == [ns.value];
    }
  }

  lemma PartsAreRead(labels: seq<bytes>, domain: seq<bytes>)
    requires QueryLabels(labels) && IsDomain(domain)
    ensures TrimDots(Join(LowerAll(labels))) == Join(LowerAll(labels))
    ensures ServiceName(Join(LowerAll(labels)), Join(domain)) == PartsName(Parts(labels), domain)
  {
    SplitUndoesJoin(domain);
    NameIsTrimmed(labels);
    NameIsSplit(labels);
  }

  lemma NameIsTrimmed(labels: seq<bytes>)
    requires QueryLabels(labels)
    ensures TrimDots(Join(LowerAll(labels))) == Join(LowerAll(labels))
  {
    var lower := LowerAll(labels);
    if labels == [] {
      assert lower == [];
    } else {
      var last := lower[|lower| - 1];
      LowerKeepsParts(labels);
      assert last in lower && last != [] && DotFree(last);
      JoinEnds(lower);
    }
  }

  lemma NameIsSplit(labels: seq<bytes>)
    requires QueryLabels(labels)
    ensures SplitDots(Join(LowerAll(labels))) == Parts(labels)
  {
    if labels == [] {
      assert LowerAll(labels) == [];
    } else {
      LowerKeepsParts(labels);
      SplitUndoesJoin(LowerAll(labels));
    }
  }

  lemma LowerKeepsParts(labels: seq<bytes>)
    requires QueryLabels(labels)
    ensures forall l | l in LowerAll(labels) :: l != [] && DotFree(l)
  {
    forall l | l in LowerAll(labels) ensures l != [] && DotFree(l) {
      var i :| 0 <= i < |labels| && LowerAll(labels)[i] == l;
      assert labels[i] in labels && l == Lower(labels[i]);
    }
  }

  ghost predicate IsDomain(domain: seq<bytes>) {
    domain != [] && forall l | l in domain :: DotFree(l)
  }

  // ---------------------------------------------------------------------
  // The services
  // ---------------------------------------------------------------------

  /** A service of the name with a spec, in the namespace if one is asked for. */
  predicate Serves(s: Service, svc: bytes, ns: Option<bytes>) {
    s.name == svc && s.spec != NoSpec && (ns.None? || ns == Some(s.namespace))
  }

  /** Service i is the first that serves; there is none if i is past the end. */
  ghost predicate Chosen(services: seq<Service>, svc: bytes, ns: Option<bytes>, i: nat) {
    i <= |services| && (i < |services| ==> Serves(services[i], svc, ns))
    && forall j | 0 <= j < i :: !Serves(services[j], svc, ns)
  }

  /** What the chosen service has to give: nothing without a service, without an address, or with an empty one or the
      text "None"; an address that reads; silence for one that does not; an external name as an address if it reads as
      one, else as an alias. */
  ghost predicate Served(h: Handling, header: bytes, labels: seq<bytes>, qtype: nat, qclass: nat, z: Zone, i: nat)
    requires |header| == 12 && i <= |z.services|
  {
    if i == |z.services| then Declines(h, header, labels, qtype, qclass)
    else match z.services[i].spec
      case NoSpec => false
      case Cluster(ip) =>
        if ip == None || ip == Some([]) || ip == Some([78, 111, 110, 101])
        then Declines(h, header, labels, qtype, qclass)
        else if z.ipv4(ip.value).Some? then GivesAddress(h, header, labels, qtype, qclass, z.ipv4(ip.value).value)
        else h == Silent
      case ExternalName(target) =>
        if target == None || target == Some([]) then Declines(h, header, labels, qtype, qclass)
        else if z.ipv4(target.value).Some?
        then GivesAddress(h, header, labels, qtype, qclass, z.ipv4(target.value).value)
        else GivesAlias(h, header, labels, qtype, qclass, target.value)
  }

  // ---------------------------------------------------------------------
  // Main results
  // ---------------------------------------------------------------------

  /** Aliases fit their 16-bit length. */
  ghost predicate AliasesFit(z: Zone) {
    forall s | s in z.services && s.spec.ExternalName? && s.spec.target.Some? ::
      |Encoded(s.spec.target.value)| < 65536
  }

  lemma FoundAliasFits(services: seq<Service>, svc: bytes, ns: Option<bytes>)
    requires forall s | s in services && s.spec.ExternalName? && s.spec.target.Some? ::
               |Encoded(s.spec.target.value)| < 65536
    ensures FindService(services, svc, ns).External? ==> |Encoded(FindService(services, svc, ns).target)| < 65536
    decreases |services|
  {
    if services != [] {
      assert services[0] in services;
      FoundAliasFits(services[1..], svc, ns);
    }
  }

  lemma AliasFits(name: bytes, z: Zone)
    requires AliasesFit(z)
    ensures Find(name, z).Alias? ==> |Encoded(Find(name, z).target)| < 65536
  {
    match ServiceName(TrimDots(name), z.domain)
    case None =>
    case Some((svc, ns)) => FoundAliasFits(z.services, svc, ns);
  }

  lemma RecursionBit(header: bytes)
    requires |header| == 12
    ensures Get16(header, 2) / 256 % 2 == 1 <==> WantsRecursion(header)
  {
    assert Get16(header, 2) / 256 == header[2];
  }

  /** The reply for a finding of the code. */
  ghost predicate Answers(h: Handling, header: bytes, labels: seq<bytes>, qtype: nat, qclass: nat, f: Finding)
    requires |header| == 12
  {
    match f
    case Address(ip) => GivesAddress(h, header, labels, qtype, qclass, ip)
    case Alias(target) => GivesAlias(h, header, labels, qtype, qclass, target)
    case Broken => h == Silent
    case Unknown => Declines(h, header, labels, qtype, qclass)
  }

  lemma ReadReplyAnswers(h: Handling, header: bytes, labels: seq<bytes>, qtype: nat, qclass: nat, f: Finding)
    requires |header| == 12 && qtype in {1, 28, 255}
    requires match h
             case Answer(packet) =>
               !f.Broken? && !(f.Unknown? && WantsRecursion(header))
               && RfcMessage(packet) == Some(Meant(Get16(header, 0), WantsRecursion(header),
                                                   if f.Unknown? then NXDOMAIN else 0,
                                                   Question(labels, qtype, qclass),
                                                   Records(f, LowerAll(labels), qtype)))
             case Forward => f.Unknown? && WantsRecursion(header)
             case Silent => f.Broken?
    ensures Answers(h, header, labels, qtype, qclass, f)
  {
    if h.Answer? {
      ReadAs(h.packet, header, labels, qtype, qclass, if f.Unknown? then 3 else 0, Records(f, LowerAll(labels), qtype));
    }
  }

  lemma ReadAs(packet: bytes, header: bytes, labels: seq<bytes>, qtype: nat, qclass: nat, rcode: nat,
               records: seq<Record>)
    requires |header| == 12 && rcode < 16
    requires RfcMessage(packet) == Some(Meant(Get16(header, 0), WantsRecursion(header), rcode,
                                              Question(labels, qtype, qclass), records))
    ensures Replies(Answer(packet), header, labels, qtype, qclass, rcode, records)
  {
  }

  lemma FindingIsAnswered(header: bytes, labels: seq<bytes>, qtype: nat, qclass: nat, tail: bytes, z: Zone,
                          text: LabelText)
    requires IsQuery(header, labels, qtype, qclass) && qtype in {1, 28, 255} && LowersAscii(text) && AliasesFit(z)
    ensures Answers(HandleQuery(Query(header, labels, qtype, qclass, tail), z, text), header, labels, qtype, qclass,
                    Find(Join(LowerAll(labels)), z))
  {
    var h := HandleQuery(Query(header, labels, qtype, qclass, tail), z, text);
    AliasFits(Join(LowerAll(labels)), z);
    RecursionBit(header);
    AnswerIsReadBack(header, labels, qtype, qclass, tail, z, text);
    ReadReplyAnswers(h, header, labels, qtype, qclass, Find(Join(LowerAll(labels)), z));
  }

  /** A host record is answered with its address, whatever the services are. */
  lemma HostRecordIsAnswered(header: bytes, labels: seq<bytes>, qtype: nat, qclass: nat, tail: bytes, z: Zone,
                             text: LabelText)
    requires IsQuery(header, labels, qtype, qclass) && qtype in {1, 28, 255} && LowersAscii(text) && AliasesFit(z)
    requires Join(LowerAll(labels)) in z.records
    ensures GivesAddress(HandleQuery(Query(header, labels, qtype, qclass, tail), z, text), header, labels, qtype,
                         qclass, z.records[Join(LowerAll(labels))])
  {
    NameIsTrimmed(labels);
    FindingIsAnswered(header, labels, qtype, qclass, tail, z, text);
  }

  lemma {:induction false} ChosenIsFound(services: seq<Service>, svc: bytes, ns: Option<bytes>, i: nat)
    requires Chosen(services, svc, ns, i)
    ensures FindService(services, svc, ns) == if i < |services| then Offered(services[i]) else Unresolved
    decreases |services|
  {
    if i > 0 {
      assert forall j | 0 <= j < i - 1 :: services[1..][j] == services[j + 1];
      assert !Serves(services[0], svc, ns);
      ChosenIsFound(services[1..], svc, ns, i - 1);
    }
  }

  /** A name without a host record that asks for a service, in any of the five shapes, is answered from the first
      listed service of that name and namespace. */
  lemma ServiceIsAnswered(header: bytes, labels: seq<bytes>, qtype: nat, qclass: nat, tail: bytes, z: Zone,
                          text: LabelText, domain: seq<bytes>, svc: bytes, ns: Option<bytes>, i: nat)
    requires IsQuery(header, labels, qtype, qclass) && qtype in {1, 28, 255} && LowersAscii(text) && AliasesFit(z)
    requires IsDomain(domain) && z.domain == Join(domain) && Join(LowerAll(labels)) !in z.records
    requires AsksFor(Parts(labels), domain, svc, ns) && Chosen(z.services, svc, ns, i)
    ensures Served(HandleQuery(Query(header, labels, qtype, qclass, tail), z, text),
                   header, labels, qtype, qclass, z, i)
  {
    var h := HandleQuery(Query(header, labels, qtype, qclass, tail), z, text);
    FindingIsAnswered(header, labels, qtype, qclass, tail, z, text);
    ServiceIsFound(labels, z, domain, svc, ns, i);
    FoundIsServed(h, header, labels, qtype, qclass, z, i, Find(Join(LowerAll(labels)), z));
  }

  /** What the code finds for the chosen service. */
  function FindingOf(z: Zone, r: Resolution): Finding {
    match r
    case ClusterIP(t) => (match z.ipv4(t) case Some(ip) => Address(ip) case None => Broken)
    case External(t) => (match z.ipv4(t) case Some(ip) => Address(ip) case None => Alias(t))
    case Unresolved => Unknown
  }

  lemma ServiceIsFound(labels: seq<bytes>, z: Zone, domain: seq<bytes>, svc: bytes, ns: Option<bytes>, i: nat)
    requires QueryLabels(labels) && IsDomain(domain) && z.domain == Join(domain)
    requires Join(LowerAll(labels)) !in z.records
    requires AsksFor(Parts(labels), domain, svc, ns) && Chosen(z.services, svc, ns, i)
    ensures Find(Join(LowerAll(labels)), z)
            == FindingOf(z, if i < |z.services| then Offered(z.services[i]) else Unresolved)
  {
    NameAsks(labels, domain, svc, ns);
    ChosenIsFound(z.services, svc, ns, i);
    FindByName(Join(LowerAll(labels)), z, svc, ns);
  }

  lemma NameAsks(labels: seq<bytes>, domain: seq<bytes>, svc: bytes, ns: Option<bytes>)
    requires QueryLabels(labels) && IsDomain(domain) && AsksFor(Parts(labels), domain, svc, ns)
    ensures var name := Join(LowerAll(labels));
            TrimDots(name) == name && ServiceName(name, Join(domain)) == Some((svc, ns))
  {
    PartsAreRead(labels, domain);
    AskedIsRead(Parts(labels), domain, svc, ns);
  }

  lemma FindByName(name: bytes, z: Zone, svc: bytes, ns: Option<bytes>)
    requires name !in z.records && TrimDots(name) == name && ServiceName(name, z.domain) == Some((svc, ns))
    ensures Find(name, z) == FindingOf(z, FindService(z.services, svc, ns))
  {
  }

  lemma FoundIsServed(h: Handling, header: bytes, labels: seq<bytes>, qtype: nat, qclass: nat, z: Zone, i: nat,
                      f: Finding)
    requires |header| == 12 && i <= |z.services| && (i < |z.services| ==> z.services[i].spec != NoSpec)
    requires f == FindingOf(z, if i < |z.services| then Offered(z.services[i]) else Unresolved)
    requires Answers(h, header, labels, qtype, qclass, f)
    ensures Served(h, header, labels, qtype, qclass, z, i)
  {
  }

  /** A name of no such shape is declined. */
  lemma OtherNamesAreDeclined(header: bytes, labels: seq<bytes>, qtype: nat, qclass: nat, tail: bytes, z: Zone,
                              text: LabelText, domain: seq<bytes>)
    requires IsQuery(header, labels, qtype, qclass) && qtype in {1, 28, 255} && LowersAscii(text) && AliasesFit(z)
    requires IsDomain(domain) && z.domain == Join(domain) && Join(LowerAll(labels)) !in z.records
    requires forall svc, ns :: !AsksFor(Parts(labels), domain, svc, ns)
    ensures Declines(HandleQuery(Query(header, labels, qtype, qclass, tail), z, text), header, labels, qtype, qclass)
  {
    FindingIsAnswered(header, labels, qtype, qclass, tail, z, text);
    NothingIsFound(labels, z, domain);
  }

  lemma NothingIsFound(labels: seq<bytes>, z: Zone, domain: seq<bytes>)
    requires QueryLabels(labels) && IsDomain(domain) && z.domain == Join(domain)
    requires Join(LowerAll(labels)) !in z.records && forall svc, ns :: !AsksFor(Parts(labels), domain, svc, ns)
    ensures Find(Join(LowerAll(labels)), z) == Unknown
  {
    PartsAreRead(labels, domain);
    var read := PartsName(Parts(labels), domain);
    if read.Some? {
      ReadIsAsked(Parts(labels), domain, read.value.0, read.value.1);
    }
  }

  /** Queries for other types are forwarded; messages that are too short, are responses or have no question get no
      reply. */
  lemma OtherQueries(header: bytes, labels: seq<bytes>, qtype: nat, qclass: nat, tail: bytes, z: Zone, text: LabelText,
                     packet: bytes)
    ensures IsQuery(header, labels, qtype, qclass) && qtype !in {1, 28, 255} && LowersAscii(text) ==>
              HandleQuery(Query(header, labels, qtype, qclass, tail), z, text) == Forward
    ensures |packet| < 12 || packet[2] >= 128 || (packet[4] == 0 && packet[5] == 0) ==>
              HandleQuery(packet, z, text) == Silent
  {
    if IsQuery(header, labels, qtype, qclass) && qtype !in {1, 28, 255} && LowersAscii(text) {
      HandlingIsResponding(header, labels, qtype, qclass, tail, z, text);
    }
  }
}
