/** Netlink attributes and the veth creation request (`nlattr*`, `create_veth_pair`), against sections
    2.2 and 2.3.2 of RFC 3549. Words are little-endian, as on the machines the program is built for. */
module Netlink {
  import opened Prelude

  const RTM_NEWLINK := 16
  const REQUEST_FLAGS := 1 + 0x400 + 0x200 + 4  // NLM_F_REQUEST | NLM_F_CREATE | NLM_F_EXCL | NLM_F_ACK
  const IFLA_IFNAME := 3
  const IFLA_MTU := 4
  const IFLA_LINKINFO := 18
  const IFLA_NET_NS_PID := 19
  const IFLA_INFO_KIND := 1
  const IFLA_INFO_DATA := 2
  const IFLA_VETH_PEER := 1

  function U16(n: nat): (r: bytes)
    ensures |r| == 2
  {
    ToLittleEndian(n, 2)
  }

  function U32(n: nat): (r: bytes)
    ensures |r| == 4
  {
    ToLittleEndian(n, 4)
  }

  function Zeros(n: nat): (r: bytes)
    ensures |r| == n
  {
    seq(n, _ => 0)
  }

  // ---------------------------------------------------------------------
  // The three helpers
  // ---------------------------------------------------------------------

  function RoundUp4(n: nat): (r: nat)
    ensures r % 4 == 0 && n <= r < n + 4
  {
    (n + 3) / 4 * 4
  }

  /** `nlattr`: the bytes of a fixed-size value, unpadded. */
  function Plain(nlaType: nat, data: bytes): bytes {
    U16(|data| + 4) + U16(nlaType) + data
  }

  function Padded(data: bytes): bytes {
    data + Zeros(RoundUp4(|data|) - |data|)
  }

  /** `nlattr_bytes`: padded to four bytes, and the length counts the padding. */
  function PaddedAttr(nlaType: nat, data: bytes): bytes {
    Plain(nlaType, Padded(data))
  }

  /** `copy_from_slice` of `part` into `buf` from `offset` on. */
  method CopyInto(buf: array<byte>, offset: nat, part: bytes)
    requires offset + |part| <= buf.Length
    modifies buf
    ensures buf[..] == old(buf[..])[..offset] + part + old(buf[..])[offset + |part|..]
  {
    forall i | 0 <= i < |part| {
      buf[offset + i] := part[i];
    }
  }

  lemma ZerosSplit(n: nat, k: nat)
    requires k <= n
    ensures Zeros(n)[k..] == Zeros(n - k) && Zeros(n) == Zeros(k) + Zeros(n - k)
  {
  }

  /** `front` written over the first bytes of a buffer whose rest is still zero. */
  method Extend(buf: array<byte>, ghost front: bytes, offset: nat, part: bytes)
    requires offset == |front| && offset + |part| <= buf.Length
    requires buf[..] == front + Zeros(buf.Length - offset)
    modifies buf
    ensures buf[..] == front + part + Zeros(buf.Length - offset - |part|)
  {
    ZerosSplit(buf.Length - offset, |part|);
    assert buf[..][..offset] == front;
    assert buf[..][offset + |part|..] == Zeros(buf.Length - offset - |part|);
    CopyInto(buf, offset, part);
  }

  method NlAttr(nlaType: nat, data: bytes) returns (out: bytes)
    ensures out == Plain(nlaType, data)
  {
    var size := |data| + 4;
    var buf := new byte[size](_ => 0);
    assert buf[..] == [] + Zeros(size);
    Extend(buf, [], 0, U16(size));
    assert [] + U16(size) == U16(size);
    Extend(buf, U16(size), 2, U16(nlaType));
    Extend(buf, U16(size) + U16(nlaType), 4, data);
    out := buf[..];
    assert out == U16(size) + U16(nlaType) + data + [];
  }

  method NlAttrBytes(nlaType: nat, data: bytes) returns (out: bytes)
    ensures out == PaddedAttr(nlaType, data)
  {
    var padded := RoundUp4(|data|);
    var size := padded + 4;
    var buf := new byte[size](_ => 0);
    assert buf[..] == [] + Zeros(size);
    Extend(buf, [], 0, U16(size));
    assert [] + U16(size) == U16(size);
    Extend(buf, U16(size), 2, U16(nlaType));
    Extend(buf, U16(size) + U16(nlaType), 4, data);
    out := buf[..];
    assert out == U16(size) + U16(nlaType) + (data + Zeros(padded - |data|));
  }

  // ---------------------------------------------------------------------
  // Attribute trees
  // ---------------------------------------------------------------------

  /** What the three helpers build. A nest may begin with a fixed structure in front of its children. */
  datatype Attr =
    | Scalar(nlaType: nat, data: bytes)
    | Text(nlaType: nat, data: bytes)
    | Nest(nlaType: nat, lead: bytes, children: seq<Attr>)

  /** The bytes an attribute carries on the wire. */
  function Payload(a: Attr): bytes
    decreases a, 0
  {
    match a
    case Scalar(_, data) => data
    case Text(_, data) => Padded(data)
    case Nest(_, lead, children) => lead + EncodeAll(children)
  }

  function Encode(a: Attr): bytes
    decreases a, 1
  {
    Plain(a.nlaType, Payload(a))
  }

  function EncodeAll(attrs: seq<Attr>): bytes
    decreases attrs
  {
    if attrs == [] then [] else Encode(attrs[0]) + EncodeAll(attrs[1..])
  }

  /** Types and sizes fit their 16-bit fields, and fixed-size parts are whole words. */
  predicate Fits(a: Attr)
    decreases a
  {
    a.nlaType < 65536 && |Payload(a)| + 4 < 65536 &&
    match a
    case Scalar(_, data) => |data| % 4 == 0
    case Text(_, _) => true
    case Nest(_, lead, children) => |lead| % 4 == 0 && forall c | c in children :: Fits(c)
  }

  // ---------------------------------------------------------------------
  // An attribute walker
  // ---------------------------------------------------------------------

  datatype Tlv = Tlv(nlaType: nat, payload: bytes)

  /** Type, length, value; the next attribute starts at the next multiple of four. */
  function Walk(buf: bytes): Option<seq<Tlv>> {
    if buf == [] then Some([])
    else if |buf| < 4 then None
    else
      var len := FromLittleEndian(buf[..2]);
      if len < 4 || len > |buf| then None
      else
        var next := if RoundUp4(len) <= |buf| then RoundUp4(len) else |buf|;
        match Walk(buf[next..])
        case None => None
        case Some(rest) => Some([Tlv(FromLittleEndian(buf[2..4]), buf[4..len])] + rest)
  }

  /** The walker found attribute `a`: its type, its payload, and recursively what is inside. */
  ghost predicate Recovers(a: Attr, t: Tlv)
    decreases a
  {
    t.nlaType == a.nlaType && t.payload == Payload(a) &&
    match a
    case Nest(_, lead, children) =>
      && |lead| <= |t.payload| && t.payload[..|lead|] == lead
      && var inner := Walk(t.payload[|lead|..]);
      && inner.Some? && |inner.value| == |children|
      && forall i | 0 <= i < |children| :: Recovers(children[i], inner.value[i])
    case _ => true
  }

  lemma LowWord(n: nat)
    requires n < 65536
    ensures FromLittleEndian(U16(n)) == n
  {
    Pow2Values();
    LittleEndianRoundTrip(n, 2);
  }

  /** How many bytes the walker skips behind a payload of this size. */
  function Gap(size: nat): nat {
    RoundUp4(size + 4) - (size + 4)
  }

  function Behind(rest: bytes, size: nat): bytes {
    if Gap(size) <= |rest| then rest[Gap(size)..] else []
  }

  function Prepend(t: Tlv, ts: Option<seq<Tlv>>): Option<seq<Tlv>> {
    match ts case None => None case Some(s) => Some([t] + s)
  }

  /** One attribute in front of anything: the walker goes on at the next multiple of four. */
  lemma WalkHead(nlaType: nat, payload: bytes, rest: bytes)
    requires nlaType < 65536 && |payload| + 4 < 65536
    ensures Walk(Plain(nlaType, payload) + rest) == Prepend(Tlv(nlaType, payload), Walk(Behind(rest, |payload|)))
  {
    var buf, len := Plain(nlaType, payload) + rest, |payload| + 4;
    LowWord(len);
    LowWord(nlaType);
    assert buf[..2] == U16(len) && buf[2..4] == U16(nlaType);
    assert buf[4..len] == payload && buf[len..] == rest;
    var next := if RoundUp4(len) <= |buf| then RoundUp4(len) else |buf|;
    assert buf[next..] == buf[len..][next - len..];
    assert buf[next..] == Behind(rest, |payload|);
  }

  /** One attribute of whole words in front of anything. */
  lemma WalkOne(nlaType: nat, payload: bytes, rest: bytes)
    requires nlaType < 65536 && |payload| + 4 < 65536 && |payload| % 4 == 0
    ensures Walk(Plain(nlaType, payload) + rest) == Prepend(Tlv(nlaType, payload), Walk(rest))
  {
    WalkHead(nlaType, payload, rest);
    NothingSkipped(rest, |payload|);
  }

  lemma NothingSkipped(rest: bytes, size: nat)
    requires size % 4 == 0
    ensures Behind(rest, size) == rest
  {
    assert RoundUp4(size + 4) == size + 4;
  }

  lemma {:induction false} PayloadIsAligned(a: Attr)
    requires Fits(a)
    ensures |Payload(a)| % 4 == 0
    decreases a, 0
  {
    if a.Nest? { EncodingIsAligned(a.children); }
  }

  lemma {:induction false} EncodingIsAligned(attrs: seq<Attr>)
    requires forall c | c in attrs :: Fits(c)
    ensures |EncodeAll(attrs)| % 4 == 0
    decreases attrs, 1
  {
    if attrs != [] {
      assert attrs[0] in attrs;
      PayloadIsAligned(attrs[0]);
      EncodingIsAligned(attrs[1..]);
      MultiplesOfFour(|Payload(attrs[0])|, |EncodeAll(attrs[1..])|);
      assert |EncodeAll(attrs)| == 4 + |Payload(attrs[0])| + |EncodeAll(attrs[1..])|;
    }
  }

  lemma MultiplesOfFour(a: nat, b: nat)
    requires a % 4 == 0 && b % 4 == 0
    ensures (4 + a + b) % 4 == 0
  {
  }

  lemma {:induction false} EncodeAllConcat(a: seq<Attr>, b: seq<Attr>)
    ensures EncodeAll(a + b) == EncodeAll(a) + EncodeAll(b)
    decreases |a|
  {
    if a == [] {
      assert a + b == b;
    } else {
      assert (a + b)[1..] == a[1..] + b;
      EncodeAllConcat(a[1..], b);
    }
  }

  /** A path of child indices that leads to an attribute. */
  predicate LeadsTo(attrs: seq<Attr>, path: seq<nat>)
    decreases |path|
  {
    path != [] && path[0] < |attrs|
    && (|path| == 1 || (attrs[path[0]].Nest? && LeadsTo(attrs[path[0]].children, path[1..])))
  }

  function AttrAt(attrs: seq<Attr>, path: seq<nat>): Attr
    requires LeadsTo(attrs, path)
    decreases |path|
  {
    if |path| == 1 then attrs[path[0]] else AttrAt(attrs[path[0]].children, path[1..])
  }

  /** Where the attribute at the end of a path starts in the encoding of the whole list. */
  function Offset(attrs: seq<Attr>, path: seq<nat>): nat
    requires LeadsTo(attrs, path)
    decreases |path|
  {
    var a := attrs[path[0]];
    |EncodeAll(attrs[..path[0]])| + if |path| == 1 then 0 else 4 + |a.lead| + Offset(a.children, path[1..])
  }

  lemma EncodingSplits(attrs: seq<Attr>, i: nat)
    requires i < |attrs|
    ensures EncodeAll(attrs) == EncodeAll(attrs[..i]) + Encode(attrs[i]) + EncodeAll(attrs[i + 1..])
  {
    assert attrs == attrs[..i] + attrs[i..];
    EncodeAllConcat(attrs[..i], attrs[i..]);
    EncodeCons(attrs, i);
    Associate(EncodeAll(attrs[..i]), Encode(attrs[i]), EncodeAll(attrs[i + 1..]));
  }

  lemma EncodeCons(attrs: seq<Attr>, i: nat)
    requires i < |attrs|
    ensures EncodeAll(attrs[i..]) == Encode(attrs[i]) + EncodeAll(attrs[i + 1..])
  {
    assert attrs[i..][0] == attrs[i] && attrs[i..][1..] == attrs[i + 1..];
  }

  lemma Associate(a: bytes, b: bytes, c: bytes)
    ensures a + (b + c) == a + b + c
  {
  }

  lemma HoldsInside(outer: bytes, p: nat, middle: bytes, q: nat, inner: bytes)
    requires HoldsAt(outer, p, middle) && HoldsAt(middle, q, inner)
    ensures HoldsAt(outer, p + q, inner)
  {
    var a, b := middle[..q], middle[q..];
    assert middle == a + b && b == inner + b[|inner|..];
    HoldsSplit(outer, p, a, b);
    HoldsSplit(outer, p + q, inner, b[|inner|..]);
  }

  lemma HoldsTwiceInside(outer: bytes, p: nat, middle: bytes, q: nat, inner: bytes, r: nat, core: bytes)
    requires HoldsAt(outer, p, middle) && HoldsAt(middle, q, inner) && HoldsAt(inner, r, core)
    ensures HoldsAt(outer, p + (q + r), core)
  {
    HoldsInside(middle, q, inner, r, core);
    HoldsInside(outer, p, middle, q + r, core);
  }

  lemma ChildrenStandBehindLead(a: Attr)
    requires a.Nest?
    ensures HoldsAt(Encode(a), 4 + |a.lead|, EncodeAll(a.children))
  {
    var children := EncodeAll(a.children);
    var front := U16(|Payload(a)| + 4) + U16(a.nlaType) + a.lead;
    assert Encode(a) == front + children;
  }

  /** Every attribute at every depth stands in the encoding at its offset, and the offset is a multiple of four. */
  lemma {:induction false} EveryAttributeIsAligned(attrs: seq<Attr>, path: seq<nat>)
    requires LeadsTo(attrs, path) && forall c | c in attrs :: Fits(c)
    ensures Offset(attrs, path) % 4 == 0
    ensures HoldsAt(EncodeAll(attrs), Offset(attrs, path), Encode(AttrAt(attrs, path)))
    decreases |path|
  {
    var i := path[0];
    var a := attrs[i];
    assert a in attrs;
    EncodingIsAligned(attrs[..i]);
    EncodingSplits(attrs, i);
    HoldsConcat(EncodeAll(attrs[..i]), Encode(a), EncodeAll(attrs[i + 1..]));
    if |path| > 1 {
      EveryAttributeIsAligned(a.children, path[1..]);
      ChildrenStandBehindLead(a);
      var here, rest := |EncodeAll(attrs[..i])|, Offset(a.children, path[1..]);
      HoldsTwiceInside(EncodeAll(attrs), here, Encode(a), 4 + |a.lead|, EncodeAll(a.children), rest,
                       Encode(AttrAt(a.children, path[1..])));
      SumOfMultiples(here, |a.lead|, rest);
    }
  }

  lemma SumOfMultiples(a: nat, b: nat, c: nat)
    requires a % 4 == 0 && b % 4 == 0 && c % 4 == 0
    ensures (a + (4 + b + c)) % 4 == 0
  {
  }

  function SizeOf(ts: seq<Tlv>): nat {
    if ts == [] then 0 else 4 + |ts[0].payload| + SizeOf(ts[1..])
  }

  lemma SizeOfCons(t: Tlv, ts: seq<Tlv>)
    ensures SizeOf([t] + ts) == 4 + |t.payload| + SizeOf(ts)
  {
    assert ([t] + ts)[1..] == ts;
  }

  lemma {:induction false} WalkFitsBuffer(buf: bytes)
    requires Walk(buf).Some?
    ensures SizeOf(Walk(buf).value) <= |buf|
    decreases |buf|
  {
    if buf != [] {
      var len := FromLittleEndian(buf[..2]);
      var next := if RoundUp4(len) <= |buf| then RoundUp4(len) else |buf|;
      WalkFitsBuffer(buf[next..]);
      SizeOfCons(Tlv(FromLittleEndian(buf[2..4]), buf[4..len]), Walk(buf[next..]).value);
    }
  }

  lemma {:induction false} WalkedSize(attrs: seq<Attr>)
    requires forall c | c in attrs :: Fits(c)
    ensures Walk(EncodeAll(attrs)).Some? && SizeOf(Walk(EncodeAll(attrs)).value) == |EncodeAll(attrs)|
    decreases |attrs|
  {
    if attrs != [] {
      var a, rest := attrs[0], attrs[1..];
      assert a in attrs;
      PayloadIsAligned(a);
      WalkedSize(rest);
      WalkOne(a.nlaType, Payload(a), EncodeAll(rest));
      SizeOfCons(Tlv(a.nlaType, Payload(a)), Walk(EncodeAll(rest)).value);
    }
  }

  /** `nlattr` does not pad, so a scalar of any size is found together with what follows it exactly when it is a whole
      number of words or the last of its list. */
  lemma ScalarIsFoundIff(nlaType: nat, data: bytes, rest: seq<Attr>)
    requires nlaType < 65536 && |data| + 4 < 65536 && forall c | c in rest :: Fits(c)
    ensures Walk(EncodeAll(rest)).Some?
    ensures Walk(Encode(Scalar(nlaType, data)) + EncodeAll(rest))
            == Some([Tlv(nlaType, data)] + Walk(EncodeAll(rest)).value)
            <==> |data| % 4 == 0 || rest == []
  {
    WalkedSize(rest);
    if |data| % 4 == 0 {
      WalkOne(nlaType, data, EncodeAll(rest));
    } else {
      UnpaddedScalar(nlaType, data, EncodeAll(rest));
    }
  }

  /** An unpadded scalar makes the walker skip the first bytes of what follows. */
  lemma UnpaddedScalar(nlaType: nat, data: bytes, rest: bytes)
    requires nlaType < 65536 && |data| + 4 < 65536 && |data| % 4 != 0
    requires Walk(rest).Some? && SizeOf(Walk(rest).value) == |rest|
    ensures Walk(Plain(nlaType, data) + rest) == Some([Tlv(nlaType, data)] + Walk(rest).value) <==> rest == []
  {
    WalkHead(nlaType, data, rest);
    PrependIs(Tlv(nlaType, data), Walk(Behind(rest, |data|)), Walk(rest).value);
    BehindIsShorter(rest, |data|);
    if rest != [] {
      ShorterWalksDiffer(rest, Behind(rest, |data|));
    }
  }

  lemma BehindIsShorter(rest: bytes, size: nat)
    requires size % 4 != 0
    ensures if rest == [] then Behind(rest, size) == rest else |Behind(rest, size)| < |rest|
  {
    WordsAfter(size);
  }

  lemma WordsAfter(size: nat)
    requires size % 4 != 0
    ensures Gap(size) > 0
  {
  }

  lemma PrependIs(t: Tlv, x: Option<seq<Tlv>>, ys: seq<Tlv>)
    ensures Prepend(t, x) == Some([t] + ys) <==> x == Some(ys)
  {
    assert x.Some? ==> ([t] + x.value)[1..] == x.value;
    assert ([t] + ys)[1..] == ys;
  }

  lemma ShorterWalksDiffer(rest: bytes, tail: bytes)
    requires Walk(rest).Some? && SizeOf(Walk(rest).value) == |rest| && |tail| < |rest|
    ensures Walk(tail) != Walk(rest)
  {
    if Walk(tail).Some? { WalkFitsBuffer(tail); }
  }

  /** An unpadded scalar and the attribute behind it are not both found. */
  lemma NarrowScalarLosesNext(nlaType: nat, data: bytes, next: Attr)
    requires nlaType < 65536 && |data| + 4 < 65536 && |data| % 4 != 0 && Fits(next)
    ensures Walk(EncodeAll([Scalar(nlaType, data), next]))
            != Some([Tlv(nlaType, data), Tlv(next.nlaType, Payload(next))])
  {
    var attrs, t, u := [Scalar(nlaType, data), next], Tlv(nlaType, data), Tlv(next.nlaType, Payload(next));
    assert attrs[0..] == attrs && attrs[1..] == [next];
    EncodeCons(attrs, 0);
    ScalarIsFoundIff(nlaType, data, [next]);
    OneIsWalked(next);
    assert [t] + [u] == [t, u];
  }

  lemma OneIsWalked(a: Attr)
    requires Fits(a)
    ensures Walk(EncodeAll([a])) == Some([Tlv(a.nlaType, Payload(a))])
  {
    EncodeOne(a);
    PayloadIsAligned(a);
    assert Encode(a) + [] == Encode(a);
    WalkOne(a.nlaType, Payload(a), []);
    assert [Tlv(a.nlaType, Payload(a))] + [] == [Tlv(a.nlaType, Payload(a))];
  }

  /** Walking the encoding of a list recovers every attribute, at every depth. */
  lemma {:induction false} WalkRecovers(attrs: seq<Attr>)
    requires forall c | c in attrs :: Fits(c)
    ensures Walk(EncodeAll(attrs)).Some? && |Walk(EncodeAll(attrs)).value| == |attrs|
    ensures forall i | 0 <= i < |attrs| :: Recovers(attrs[i], Walk(EncodeAll(attrs)).value[i])
    decreases attrs, 1
  {
    if attrs != [] {
      var a, rest := attrs[0], attrs[1..];
      assert a in attrs;
      PayloadIsAligned(a);
      WalkOne(a.nlaType, Payload(a), EncodeAll(rest));
      WalkRecovers(rest);
      PayloadRecovers(a);
    }
  }

  lemma {:induction false} PayloadRecovers(a: Attr)
    requires Fits(a)
    ensures Recovers(a, Tlv(a.nlaType, Payload(a)))
    decreases a, 0
  {
    if a.Nest? {
      WalkRecovers(a.children);
      assert Payload(a)[..|a.lead|] == a.lead && Payload(a)[|a.lead|..] == EncodeAll(a.children);
    }
  }

  /** The length of a text attribute counts its padding, so the text itself is recovered exactly when
      it is a whole number of words. */
  lemma TextIsRecoveredIff(a: Attr)
    requires a.Text?
    ensures Payload(a) == a.data <==> |a.data| % 4 == 0
  {
  }

  // ---------------------------------------------------------------------
  // create_veth_pair
  // ---------------------------------------------------------------------

  const KIND_VETH: bytes := [118, 101, 116, 104, 0]  // "veth" and its terminator

  function PeerAttrs(peer: bytes, pid: Option<nat>): seq<Attr> {
    [Text(IFLA_IFNAME, peer)] + (if pid.Some? then [Scalar(IFLA_NET_NS_PID, U32(pid.value))] else [])
  }

  /** The peer nest begins with an interface structure of zeros. */
  function PeerNest(peer: bytes, pid: Option<nat>): Attr {
    Nest(IFLA_VETH_PEER, Zeros(16), PeerAttrs(peer, pid))
  }

  function LinkInfo(peer: bytes, pid: Option<nat>): Attr {
    Nest(IFLA_LINKINFO, [], [Text(IFLA_INFO_KIND, KIND_VETH), Nest(IFLA_INFO_DATA, [], [PeerNest(peer, pid)])])
  }

  function VethAttrs(host: bytes, peer: bytes, pid: Option<nat>): seq<Attr> {
    [Text(IFLA_IFNAME, host), Scalar(IFLA_MTU, U32(1500)), LinkInfo(peer, pid)]
  }

  /** Message header, then an interface structure of zeros. */
  function RequestHead(total: nat): (r: bytes)
    ensures |r| == 32
  {
    U32(total) + U16(RTM_NEWLINK) + U16(REQUEST_FLAGS) + U32(1) + U32(0) + Zeros(16)
  }

  /** The head, with the length of everything, and the attributes. */
  function Request(attrs: seq<Attr>): bytes {
    RequestHead(32 + |EncodeAll(attrs)|) + EncodeAll(attrs)
  }

  function VethRequest(host: bytes, peer: bytes, pid: Option<nat>): bytes {
    Request(VethAttrs(host, peer, pid))
  }

  lemma EncodeOne(a: Attr)
    ensures EncodeAll([a]) == Encode(a)
  {
    assert [a][1..] == [];
    assert Encode(a) + [] == Encode(a);
  }

  lemma EncodeTwo(a: Attr, b: Attr)
    ensures EncodeAll([a, b]) == Encode(a) + Encode(b)
  {
    assert [a, b][1..] == [b];
    EncodeOne(b);
  }

  method BuildPeer(peer: bytes, pid: Option<nat>) returns (out: bytes)
    ensures out == Encode(PeerNest(peer, pid))
  {
    var data := Zeros(16);
    var name := NlAttrBytes(IFLA_IFNAME, peer);
    data := data + name;
    EncodeOne(Text(IFLA_IFNAME, peer));
    if pid.Some? {
      var ns := NlAttr(IFLA_NET_NS_PID, U32(pid.value));
      data := data + ns;
      EncodeTwo(Text(IFLA_IFNAME, peer), Scalar(IFLA_NET_NS_PID, U32(pid.value)));
      assert PeerAttrs(peer, pid) == [Text(IFLA_IFNAME, peer), Scalar(IFLA_NET_NS_PID, U32(pid.value))];
    } else {
      assert PeerAttrs(peer, pid) == [Text(IFLA_IFNAME, peer)];
    }
    assert data == Payload(PeerNest(peer, pid));
    out := NlAttr(IFLA_VETH_PEER, data);
  }

  method BuildLinkInfo(peer: bytes, pid: Option<nat>) returns (out: bytes)
    ensures out == Encode(LinkInfo(peer, pid))
  {
    var peerNest := BuildPeer(peer, pid);
    var info := NlAttrBytes(IFLA_INFO_KIND, KIND_VETH);
    var infoData := NlAttr(IFLA_INFO_DATA, peerNest);
    EncodeOne(PeerNest(peer, pid));
    var dataNest := Nest(IFLA_INFO_DATA, [], [PeerNest(peer, pid)]);
    assert Payload(dataNest) == peerNest;
    EncodeTwo(Text(IFLA_INFO_KIND, KIND_VETH), dataNest);
    assert Payload(LinkInfo(peer, pid)) == info + infoData;
    out := NlAttr(IFLA_LINKINFO, info + infoData);
  }

  /** Fills the fixed head of a zeroed buffer field by field. */
  method FillHead(buf: array<byte>, total: nat)
    requires buf.Length >= 32 && buf[..] == Zeros(buf.Length)
    modifies buf
    ensures buf[..] == RequestHead(total) + Zeros(buf.Length - 32)
  {
    assert buf[..] == [] + Zeros(buf.Length);
    var length, kind, flags := U32(total), U16(RTM_NEWLINK), U16(REQUEST_FLAGS);
    Extend(buf, [], 0, length);
    assert [] + length == length;
    Extend(buf, length, 4, kind);
    Extend(buf, length + kind, 6, flags);
    Extend(buf, length + kind + flags, 8, U32(1));
    Extend(buf, length + kind + flags + U32(1), 12, U32(0));
    ZerosSplit(buf.Length - 16, 16);
  }

  /** The request buffer: sized from its parts, the head filled in, the attributes copied at a running offset. */
  method BuildVethRequest(host: bytes, peer: bytes, pid: Option<nat>) returns (out: bytes)
    ensures out == VethRequest(host, peer, pid)
  {
    var infoNested := BuildLinkInfo(peer, pid);
    var ifname := NlAttrBytes(IFLA_IFNAME, host);
    var mtu := NlAttr(IFLA_MTU, U32(1500));
    var total := 16 + (16 + |ifname| + |mtu| + |infoNested|);
    var attrs: seq<bytes> := [ifname, mtu, infoNested];
    ConcatThree(ifname, mtu, infoNested);
    var buf := new byte[total](_ => 0);
    assert buf[..] == Zeros(total);
    FillHead(buf, total);
    CopyAll(buf, RequestHead(total), 32, attrs);
    VethBody(host, peer, pid, ifname, mtu, infoNested);
    out := buf[..];
  }

  /** The copying loop: each attribute goes to the running offset. */
  method CopyAll(buf: array<byte>, ghost head: bytes, start: nat, attrs: seq<bytes>)
    requires start == |head| && start + |Concat(attrs)| == buf.Length
    requires buf[..] == head + Zeros(buf.Length - start)
    modifies buf
    ensures buf[..] == head + Concat(attrs)
  {
    var offset := start;
    ghost var front := head;
    for i := 0 to |attrs|
      invariant offset == |front| && offset + |Concat(attrs[i..])| == buf.Length
      invariant buf[..] == front + Zeros(buf.Length - offset)
      invariant front + Concat(attrs[i..]) == head + Concat(attrs)
    {
      assert attrs[i..][1..] == attrs[i + 1..];
      assert front + Concat(attrs[i..]) == front + attrs[i] + Concat(attrs[i + 1..]);
      Extend(buf, front, offset, attrs[i]);
      front, offset := front + attrs[i], offset + |attrs[i]|;
    }
  }

  lemma ConcatThree(a: bytes, b: bytes, c: bytes)
    ensures Concat([a, b, c]) == a + (b + c)
  {
    var all: seq<bytes> := [a, b, c];
    assert all[1..] == [b, c] && all[1..][1..] == [c] && all[1..][1..][1..] == [];
    assert Concat(all[1..][1..]) == c;
  }

  lemma VethBody(host: bytes, peer: bytes, pid: Option<nat>, ifname: bytes, mtu: bytes, info: bytes)
    requires ifname == PaddedAttr(IFLA_IFNAME, host) && mtu == Plain(IFLA_MTU, U32(1500))
             && info == Encode(LinkInfo(peer, pid))
    ensures Concat([ifname, mtu, info]) == EncodeAll(VethAttrs(host, peer, pid))
  {
    var all := VethAttrs(host, peer, pid);
    assert all[1..] == [all[1], all[2]];
    EncodeTwo(all[1], all[2]);
    ConcatThree(ifname, mtu, info);
    assert Encode(all[0]) == ifname && Encode(all[1]) == mtu && Encode(all[2]) == info;
  }

  function PidBytes(pid: Option<nat>): nat {
    if pid.Some? then 8 else 0
  }

  lemma PeerSize(peer: bytes, pid: Option<nat>)
    ensures |Payload(PeerNest(peer, pid))| == 20 + RoundUp4(|peer|) + PidBytes(pid)
  {
    EncodeOne(Text(IFLA_IFNAME, peer));
    if pid.Some? {
      EncodeTwo(Text(IFLA_IFNAME, peer), Scalar(IFLA_NET_NS_PID, U32(pid.value)));
      assert PeerAttrs(peer, pid) == [Text(IFLA_IFNAME, peer), Scalar(IFLA_NET_NS_PID, U32(pid.value))];
    } else {
      assert PeerAttrs(peer, pid) == [Text(IFLA_IFNAME, peer)];
    }
  }

  lemma LinkInfoSize(peer: bytes, pid: Option<nat>)
    ensures |Payload(Nest(IFLA_INFO_DATA, [], [PeerNest(peer, pid)]))| == 24 + RoundUp4(|peer|) + PidBytes(pid)
    ensures |Payload(LinkInfo(peer, pid))| == 40 + RoundUp4(|peer|) + PidBytes(pid)
  {
    PeerSize(peer, pid);
    EncodeOne(PeerNest(peer, pid));
    EncodeTwo(Text(IFLA_INFO_KIND, KIND_VETH), Nest(IFLA_INFO_DATA, [], [PeerNest(peer, pid)]));
  }

  lemma PeerFits(peer: bytes, pid: Option<nat>)
    requires 20 + RoundUp4(|peer|) + PidBytes(pid) + 4 < 65536
    ensures Fits(PeerNest(peer, pid))
  {
    PeerSize(peer, pid);
  }

  /** The request fits its 16-bit lengths exactly for names up to a bound far above what the kernel takes. */
  lemma VethAttrsFitIff(host: bytes, peer: bytes, pid: Option<nat>)
    ensures (forall c | c in VethAttrs(host, peer, pid) :: Fits(c))
            <==> RoundUp4(|host|) + 4 < 65536 && RoundUp4(|peer|) + PidBytes(pid) + 44 < 65536
  {
    LinkInfoSize(peer, pid);
    var all := VethAttrs(host, peer, pid);
    if RoundUp4(|host|) + 4 < 65536 && RoundUp4(|peer|) + PidBytes(pid) + 44 < 65536 {
      PeerFits(peer, pid);
      assert Fits(Nest(IFLA_INFO_DATA, [], [PeerNest(peer, pid)]));
      assert Fits(Text(IFLA_INFO_KIND, KIND_VETH));
      assert Fits(all[0]) && Fits(all[1]) && Fits(all[2]);
    } else {
      assert !Fits(all[0]) || !Fits(all[2]);
      assert all[0] in all && all[2] in all;
    }
  }

  /** The request's length field is its length, and walking everything behind the fixed head recovers
      exactly the attribute tree of the pair, with no byte left over. */
  lemma VethRequestIsReadBack(host: bytes, peer: bytes, pid: Option<nat>)
    requires forall c | c in VethAttrs(host, peer, pid) :: Fits(c)
    ensures var buf, attrs := VethRequest(host, peer, pid), VethAttrs(host, peer, pid);
            && |buf| >= 32 && FromLittleEndian(buf[..4]) == |buf|
            && FromLittleEndian(buf[4..6]) == RTM_NEWLINK && FromLittleEndian(buf[6..8]) == REQUEST_FLAGS
            && var walked := Walk(buf[32..]);
            && walked.Some? && |walked.value| == |attrs|
            && forall i | 0 <= i < |attrs| :: Recovers(attrs[i], walked.value[i])
  {
    var attrs := VethAttrs(host, peer, pid);
    WalkRecovers(attrs);
    BodySize(host, peer, pid);
    HeadIsRead(32 + |EncodeAll(attrs)|, EncodeAll(attrs));
  }

  lemma BodySize(host: bytes, peer: bytes, pid: Option<nat>)
    requires forall c | c in VethAttrs(host, peer, pid) :: Fits(c)
    ensures |EncodeAll(VethAttrs(host, peer, pid))| < 0x4_0000
  {
    var all := VethAttrs(host, peer, pid);
    assert all[0] in all && all[1] in all && all[2] in all;
    assert all[1..] == [all[1], all[2]];
    EncodeTwo(all[1], all[2]);
  }

  lemma HeadIsRead(total: nat, body: bytes)
    requires total < 0x1_0000_0000
    ensures var buf := RequestHead(total) + body;
            && FromLittleEndian(buf[..4]) == total && FromLittleEndian(buf[4..6]) == RTM_NEWLINK
            && FromLittleEndian(buf[6..8]) == REQUEST_FLAGS && buf[32..] == body
  {
    var buf := RequestHead(total) + body;
    assert buf[..4] == U32(total) && buf[4..6] == U16(RTM_NEWLINK) && buf[6..8] == U16(REQUEST_FLAGS);
    LowWord(RTM_NEWLINK);
    LowWord(REQUEST_FLAGS);
    Pow2Values();
    LittleEndianRoundTrip(total, 4);
  }

  /** The text, filled up with zeros to a multiple of four. */
  predicate IsPadded(payload: bytes, text: bytes) {
    |payload| == (|text| + 3) / 4 * 4 && text <= payload && forall i | |text| <= i < |payload| :: payload[i] == 0
  }

  lemma PaddedText(text: bytes)
    ensures IsPadded(Padded(text), text)
  {
  }

  function Found(a: Attr): Tlv {
    Tlv(a.nlaType, Payload(a))
  }

  lemma WalkOfTwo(a: Attr, b: Attr)
    requires Fits(a) && Fits(b)
    ensures Walk(EncodeAll([a, b])) == Some([Found(a), Found(b)])
  {
    WalkOfMore(a, [b], [Found(b)]) by { OneIsWalked(b); }
    assert [a] + [b] == [a, b] && [Found(a)] + [Found(b)] == [Found(a), Found(b)];
  }

  lemma WalkOfThree(a: Attr, b: Attr, c: Attr)
    requires Fits(a) && Fits(b) && Fits(c)
    ensures Walk(EncodeAll([a, b, c])) == Some([Found(a), Found(b), Found(c)])
  {
    WalkOfMore(a, [b, c], [Found(b), Found(c)]) by { WalkOfTwo(b, c); }
    assert [a] + [b, c] == [a, b, c];
    assert [Found(a)] + [Found(b), Found(c)] == [Found(a), Found(b), Found(c)];
  }

  lemma WalkOfMore(a: Attr, rest: seq<Attr>, found: seq<Tlv>)
    requires Fits(a) && Walk(EncodeAll(rest)) == Some(found)
    ensures Walk(EncodeAll([a] + rest)) == Some([Found(a)] + found)
  {
    PayloadIsAligned(a);
    WalkOne(a.nlaType, Payload(a), EncodeAll(rest));
    assert ([a] + rest)[1..] == rest;
  }

  /** A little-endian word of four bytes. */
  predicate IsWord(bs: bytes, n: nat) {
    |bs| == 4 && n == bs[0] + 0x100 * bs[1] as int + 0x1_0000 * bs[2] as int + 0x100_0000 * bs[3] as int
  }

  lemma WordOf(n: nat)
    requires n < 0x1_0000_0000
    ensures IsWord(U32(n), n)
  {
    WordBytes(n);
    var m1, m2, m3 := n / 256, n / 256 / 256, n / 256 / 256 / 256;
    assert n == n % 256 + 256 * m1 && m1 == m1 % 256 + 256 * m2 && m2 == m2 % 256 + 256 * m3;
    assert m3 % 256 == m3;
  }

  lemma WordBytes(n: nat)
    ensures U32(n) == [n % 256, n / 256 % 256, n / 256 / 256 % 256, n / 256 / 256 / 256 % 256]
  {
    var m1, m2, m3 := n / 256, n / 256 / 256, n / 256 / 256 / 256;
    assert ToLittleEndian(m3 / 256, 0) == [];
    assert ToLittleEndian(m3, 1) == [m3 % 256];
    assert ToLittleEndian(m2, 2) == [m2 % 256, m3 % 256];
    assert ToLittleEndian(m1, 3) == [m1 % 256, m2 % 256, m3 % 256];
  }

  /** The peer's attributes, in numbers: its name under type 3 and, exactly if a process is given, that process under
      type 19. */
  ghost predicate DescribesPeer(bs: bytes, peer: bytes, pid: Option<nat>) {
    exists name: bytes, ns: bytes :: PeerFound(bs, peer, pid, name, ns)
  }

  ghost predicate PeerFound(bs: bytes, peer: bytes, pid: Option<nat>, name: bytes, ns: bytes) {
    && IsPadded(name, peer) && (pid.Some? ==> IsWord(ns, pid.value))
    && Walk(bs) == Some([Tlv(3, name)] + if pid.Some? then [Tlv(19, ns)] else [])
  }

  /** The link information, in numbers: kind "veth" under type 1, and under type 2 a type 1 that holds sixteen zeros
      and the peer's attributes. */
  ghost predicate DescribesLink(bs: bytes, peer: bytes, pid: Option<nat>) {
    exists data: bytes, inner: bytes ::
      && Walk(bs) == Some([Tlv(1, [118, 101, 116, 104, 0, 0, 0, 0]), Tlv(2, data)])
      && Walk(data) == Some([Tlv(1, inner)])
      && |inner| >= 16 && (forall i | 0 <= i < 16 :: inner[i] == 0) && DescribesPeer(inner[16..], peer, pid)
  }

  lemma PeerIsDescribed(peer: bytes, pid: Option<nat>)
    requires forall c | c in PeerAttrs(peer, pid) :: Fits(c)
    requires pid.Some? ==> pid.value < 0x1_0000_0000
    ensures DescribesPeer(EncodeAll(PeerAttrs(peer, pid)), peer, pid)
  {
    var attrs := PeerAttrs(peer, pid);
    PaddedText(peer);
    assert attrs[0] in attrs;
    if pid.Some? {
      WordOf(pid.value);
      assert attrs[1] in attrs && attrs == [attrs[0], attrs[1]];
      WalkOfTwo(attrs[0], attrs[1]);
      assert [Tlv(3, Padded(peer))] + [Tlv(19, U32(pid.value))] == [Tlv(3, Padded(peer)), Tlv(19, U32(pid.value))];
      assert PeerFound(EncodeAll(attrs), peer, pid, Padded(peer), U32(pid.value));
    } else {
      assert attrs == [attrs[0]];
      OneIsWalked(attrs[0]);
      assert [Tlv(3, Padded(peer))] + [] == [Tlv(3, Padded(peer))];
      assert PeerFound(EncodeAll(attrs), peer, pid, Padded(peer), []);
    }
  }

  lemma LinkIsDescribed(peer: bytes, pid: Option<nat>)
    requires Fits(LinkInfo(peer, pid)) && (pid.Some? ==> pid.value < 0x1_0000_0000)
    ensures DescribesLink(Payload(LinkInfo(peer, pid)), peer, pid)
  {
    var info := LinkInfo(peer, pid);
    var kind, data := info.children[0], info.children[1];
    var nest := data.children[0];
    assert kind in info.children && data in info.children && nest in data.children;
    assert info.children == [kind, data] && data.children == [nest];
    PlainNest(info);
    PlainNest(data);
    WalkOfTwo(kind, data);
    OneIsWalked(nest);
    PeerIsDescribed(peer, pid);
    assert Padded(KIND_VETH) == [118, 101, 116, 104, 0, 0, 0, 0];
    LinkFromParts(Payload(info), Payload(data), Payload(nest), peer, pid) by {
      assert Payload(nest)[16..] == EncodeAll(PeerAttrs(peer, pid));
    }
  }

  lemma PlainNest(a: Attr)
    requires a.Nest? && a.lead == []
    ensures Payload(a) == EncodeAll(a.children)
  {
  }

  lemma LinkFromParts(bs: bytes, data: bytes, inner: bytes, peer: bytes, pid: Option<nat>)
    requires Walk(bs) == Some([Tlv(1, [118, 101, 116, 104, 0, 0, 0, 0]), Tlv(2, data)])
    requires Walk(data) == Some([Tlv(1, inner)]) && |inner| >= 16
    requires (forall i | 0 <= i < 16 :: inner[i] == 0) && DescribesPeer(inner[16..], peer, pid)
    ensures DescribesLink(bs, peer, pid)
  {
  }

  /** The request of a pair in numbers, for every pair of names that fits: message type 16, flags 0x605, sequence
      number 1, port 0, an interface structure of zeros, then the host's name under type 3, 1500 under type 4 and the
      link information under type 18, with no byte left over. */
  lemma VethRequestMeaning(host: bytes, peer: bytes, pid: Option<nat>)
    requires (|host| + 3) / 4 * 4 + 4 < 65536 && (pid.Some? ==> pid.value < 0x1_0000_0000)
    requires (|peer| + 3) / 4 * 4 + (if pid.Some? then 8 else 0) + 44 < 65536
    ensures var buf := VethRequest(host, peer, pid);
            && |buf| >= 32 && IsWord(buf[..4], |buf|)
            && buf[4..16] == [16, 0, 5, 6, 1, 0, 0, 0, 0, 0, 0, 0]
            && (forall i | 16 <= i < 32 :: buf[i] == 0)
            && exists name: bytes, info: bytes ::
                 IsPadded(name, host) && DescribesLink(info, peer, pid)
                 && Walk(buf[32..]) == Some([Tlv(3, name), Tlv(4, [220, 5, 0, 0]), Tlv(18, info)])
  {
    var info := LinkInfo(peer, pid);
    var body := EncodeAll(VethAttrs(host, peer, pid));
    VethBodyIsWalked(host, peer, pid);
    BodySize(host, peer, pid);
    HeadBytes(32 + |body|, body);
    PaddedText(host);
    LinkIsDescribed(peer, pid);
    assert IsPadded(Padded(host), host) && DescribesLink(Payload(info), peer, pid);
  }

  lemma VethBodyIsWalked(host: bytes, peer: bytes, pid: Option<nat>)
    requires (|host| + 3) / 4 * 4 + 4 < 65536 && (|peer| + 3) / 4 * 4 + (if pid.Some? then 8 else 0) + 44 < 65536
    ensures forall c | c in VethAttrs(host, peer, pid) :: Fits(c)
    ensures Fits(LinkInfo(peer, pid))
    ensures Walk(EncodeAll(VethAttrs(host, peer, pid)))
            == Some([Tlv(3, Padded(host)), Tlv(4, [220, 5, 0, 0]), Tlv(18, Payload(LinkInfo(peer, pid)))])
  {
    VethAttrsFitIff(host, peer, pid);
    ListIsWalked(VethAttrs(host, peer, pid));
    MtuBytes();
  }

  lemma ListIsWalked(attrs: seq<Attr>)
    requires |attrs| == 3 && forall c | c in attrs :: Fits(c)
    ensures Fits(attrs[2])
    ensures Walk(EncodeAll(attrs)) == Some([Found(attrs[0]), Found(attrs[1]), Found(attrs[2])])
  {
    assert attrs[0] in attrs && attrs[1] in attrs && attrs[2] in attrs;
    assert attrs == [attrs[0], attrs[1], attrs[2]];
    WalkOfThree(attrs[0], attrs[1], attrs[2]);
  }

  lemma MtuBytes()
    ensures U32(1500) == [220, 5, 0, 0]
  {
    var n: nat := 1500;
    WordBytes(n);
  }

  lemma HeadBytes(total: nat, body: bytes)
    requires total < 0x1_0000_0000
    ensures var buf := RequestHead(total) + body;
            && IsWord(buf[..4], total) && buf[4..16] == [16, 0, 5, 6, 1, 0, 0, 0, 0, 0, 0, 0]
            && (forall i | 16 <= i < 32 :: buf[i] == 0) && buf[32..] == body
  {
    var head := RequestHead(total);
    WordOf(total);
    WordBytes(1);
    WordBytes(0);
    HalfBytes(RTM_NEWLINK);
    HalfBytes(REQUEST_FLAGS);
    assert head[..4] == U32(total);
    assert head[4..16] == [16, 0] + [5, 6] + [1, 0, 0, 0] + [0, 0, 0, 0];
    assert head[16..32] == Zeros(16);
    var buf := head + body;
    assert buf[..4] == head[..4] && buf[4..16] == head[4..16];
    forall i | 16 <= i < 32 ensures buf[i] == 0 {
      assert buf[i] == head[16..32][i - 16];
    }
  }

  lemma HalfBytes(n: nat)
    ensures U16(n) == [n % 256, n / 256 % 256]
  {
    var m := n / 256;
    assert ToLittleEndian(m / 256, 0) == [];
    assert ToLittleEndian(m, 1) == [m % 256];
  }

  lemma AlignedBehindHead(head: bytes, attrs: seq<Attr>, path: seq<nat>)
    requires |head| % 4 == 0 && LeadsTo(attrs, path) && forall c | c in attrs :: Fits(c)
    ensures (|head| + Offset(attrs, path)) % 4 == 0
    ensures HoldsAt(head + EncodeAll(attrs), |head| + Offset(attrs, path), Encode(AttrAt(attrs, path)))
  {
    var body := EncodeAll(attrs);
    EveryAttributeIsAligned(attrs, path);
    assert HoldsAt(head + body, |head|, body);
    HoldsInside(head + body, |head|, body, Offset(attrs, path), Encode(AttrAt(attrs, path)));
  }

  /** In a whole request, too, every attribute at every depth starts on a multiple of four. */
  lemma RequestIsAligned(attrs: seq<Attr>, path: seq<nat>)
    requires LeadsTo(attrs, path) && forall c | c in attrs :: Fits(c)
    ensures (32 + Offset(attrs, path)) % 4 == 0
    ensures HoldsAt(Request(attrs), 32 + Offset(attrs, path), Encode(AttrAt(attrs, path)))
  {
    AlignedBehindHead(RequestHead(32 + |EncodeAll(attrs)|), attrs, path);
  }
}
