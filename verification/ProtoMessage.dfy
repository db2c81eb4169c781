/** Field lookup in protobuf messages and the object-metadata decoder built on it. */
module ProtoMessage {
  import opened Prelude
  import opened ProtoWire

  /** A call either returns or stops at an overflowing length. */
  datatype Outcome<+T> = Returned(value: T) | Panicked

  // ---------------------------------------------------------------------
  // get_bytes_field and get_varint_field
  // ---------------------------------------------------------------------

  function BytesField(r: Reading, target: nat): Outcome<Option<bytes>>
    decreases |r.fields|
  {
    if r.fields == [] then (if r.overflowed then Panicked else Returned(None))
    else match r.fields[0].value
      case Bytes(b) =>
        if r.fields[0].number == target then Returned(Some(b))
        else BytesField(Reading(r.fields[1..], r.overflowed), target)
      case _ => Returned(None)
  }

  function VarintField(r: Reading, target: nat): Outcome<Option<nat>>
    decreases |r.fields|
  {
    if r.fields == [] then (if r.overflowed then Panicked else Returned(None))
    else if r.fields[0].number == target && r.fields[0].value.Varint? then Returned(Some(r.fields[0].value.n))
    else VarintField(Reading(r.fields[1..], r.overflowed), target)
  }

  function LookUp(msg: bytes, target: nat): Outcome<Option<bytes>> {
    BytesField(ReadAll(msg, 0), target)
  }

  /** One unfolding of `ReadAll` at the parser's position. */
  lemma ReadAllStep(data: bytes, pos: nat)
    requires pos <= |data|
    ensures match FieldAt(data, pos)
            case Got(f, next) =>
              pos < next <= |data| && var rest := ReadAll(data, next);
              ReadAll(data, pos).fields != [] && ReadAll(data, pos).fields[0] == f &&
              rest == Reading(ReadAll(data, pos).fields[1..], ReadAll(data, pos).overflowed)
            case End(_) => ReadAll(data, pos) == Reading([], false)
            case Overflow => ReadAll(data, pos) == Reading([], true)
  {
    FieldAdvances(data, pos);
  }

  method GetBytesField(msg: bytes, target: nat) returns (r: Outcome<Option<bytes>>)
    ensures r == LookUp(msg, target)
  {
    var p := new Parser(msg);
    while true
      invariant p.data == msg && p.pos <= |msg|
      invariant BytesField(ReadAll(msg, p.pos), target) == LookUp(msg, target)
      decreases |msg| - p.pos
    {
      ReadAllStep(msg, p.pos);
      var step := p.NextField();
      match step {
        case Got(Field(f, Bytes(b)), _) =>
          if f == target { return Returned(Some(b)); }
        case Overflow => return Panicked;
        case _ => return Returned(None);
      }
    }
  }

  method GetVarintField(msg: bytes, target: nat) returns (r: Outcome<Option<nat>>)
    ensures r == VarintField(ReadAll(msg, 0), target)
  {
    var p := new Parser(msg);
    while true
      invariant p.data == msg && p.pos <= |msg|
      invariant VarintField(ReadAll(msg, p.pos), target) == VarintField(ReadAll(msg, 0), target)
      decreases |msg| - p.pos
    {
      ReadAllStep(msg, p.pos);
      var step := p.NextField();
      match step {
        case Got(Field(f, v), _) =>
          if f == target && v.Varint? { return Returned(Some(v.n)); }
        case Overflow => return Panicked;
        case End(_) => return Returned(None);
      }
    }
  }

  /** Field i is the first varint with the number, and n is its value. */
  ghost predicate FirstVarint(fields: seq<Field>, target: nat, i: nat, n: nat) {
    i < |fields| && fields[i] == Field(target, Varint(n))
    && forall j | 0 <= j < i :: !(fields[j].number == target && fields[j].value.Varint?)
  }

  ghost predicate NoVarint(fields: seq<Field>, target: nat) {
    forall j | 0 <= j < |fields| :: !(fields[j].number == target && fields[j].value.Varint?)
  }

  /** The position at which the search stops. */
  lemma {:induction false} VarintSearch(fields: seq<Field>, target: nat) returns (i: nat)
    ensures i <= |fields|
    ensures i < |fields| ==> fields[i].value.Varint? && FirstVarint(fields, target, i, fields[i].value.n)
    ensures i == |fields| ==> NoVarint(fields, target)
    ensures VarintField(Reading(fields, false), target)
            == Returned(if i < |fields| then Some(fields[i].value.n) else None)
    decreases |fields|
  {
    if fields == [] || (fields[0].number == target && fields[0].value.Varint?) {
      i := 0;
    } else {
      var rest := fields[1..];
      var k := VarintSearch(rest, target);
      i := k + 1;
      assert forall j | 0 < j < |fields| :: fields[j] == rest[j - 1];
    }
  }

  lemma FirstVarintIsUnique(fields: seq<Field>, target: nat, i: nat, n: nat, j: nat, m: nat)
    requires FirstVarint(fields, target, i, n) && FirstVarint(fields, target, j, m)
    ensures i == j && n == m
  {
  }

  /** On any serialised fields `get_varint_field` finds the value of the first varint with the number, whatever other
      fields stand in front, and nothing exactly when there is none. */
  lemma VarintIsFirstIff(fields: seq<Field>, target: nat, n: nat)
    requires (forall f | f in fields :: WellFormed(f)) && |Serialize(fields)| < U64
    ensures VarintField(ReadAll(Serialize(fields), 0), target) == Returned(Some(n)) <==>
            exists i: nat :: FirstVarint(fields, target, i, n)
    ensures VarintField(ReadAll(Serialize(fields), 0), target) == Returned(None) <==> NoVarint(fields, target)
  {
    WireRoundTrip(fields);
    var k := VarintSearch(fields, target);
    forall i: nat | FirstVarint(fields, target, i, n) ensures k < |fields| && fields[k].value.n == n {
      assert fields[i].number == target && fields[i].value.Varint?;
      if k < |fields| { FirstVarintIsUnique(fields, target, i, n, k, fields[k].value.n); }
    }
    assert k < |fields| ==> fields[k].number == target && fields[k].value.Varint?;
  }

  /** A varint behind fields of any other number or kind is found, where a length-delimited field behind a field of
      another kind is not. */
  lemma VarintIsFoundBehind(front: seq<Field>, target: nat, n: nat, rest: seq<Field>)
    requires NoVarint(front, target)
    ensures VarintField(Reading(front + [Field(target, Varint(n))] + rest, false), target) == Returned(Some(n))
  {
    var fields := front + [Field(target, Varint(n))] + rest;
    var k := VarintSearch(fields, target);
    assert FirstVarint(fields, target, |front|, n);
    assert fields[|front|].number == target && fields[|front|].value.Varint?;
    if k < |fields| { FirstVarintIsUnique(fields, target, |front|, n, k, fields[k].value.n); }
  }

  ghost predicate IsMatch(f: Field, target: nat) {
    f.number == target && f.value.Bytes?
  }

  /** The whole-message search: the first length-delimited field with the number, wherever it is. */
  function FirstMatch(fields: seq<Field>, target: nat): Option<bytes> {
    if fields == [] then None
    else if fields[0].number == target && fields[0].value.Bytes? then Some(fields[0].value.b)
    else FirstMatch(fields[1..], target)
  }

  /** Position j is the first match, and position i before it holds another kind of field. */
  ghost predicate Cuts(fields: seq<Field>, i: int, j: int, target: nat) {
    && 0 <= i < j < |fields|
    && !fields[i].value.Bytes? && IsMatch(fields[j], target)
    && forall k | 0 <= k < j :: !IsMatch(fields[k], target)
  }

  ghost predicate CutOff(fields: seq<Field>, target: nat) {
    exists i, j :: Cuts(fields, i, j, target)
  }

  lemma CutsShift(head: Field, rest: seq<Field>, i: int, j: int, target: nat)
    requires head.value.Bytes? && head.number != target
    ensures Cuts([head] + rest, i, j, target) <==> Cuts(rest, i - 1, j - 1, target)
  {
    var fields := [head] + rest;
    assert forall k | 0 <= k < |rest| :: fields[k + 1] == rest[k];
    if Cuts(rest, i - 1, j - 1, target) {
      assert forall k | 0 <= k < j :: k == 0 || fields[k] == rest[k - 1];
    }
  }

  lemma CutOffStep(fields: seq<Field>, target: nat)
    requires fields != [] && fields[0].value.Bytes? && fields[0].number != target
    ensures CutOff(fields, target) <==> CutOff(fields[1..], target)
  {
    assert fields == [fields[0]] + fields[1..];
    if i, j :| Cuts(fields, i, j, target) {
      CutsShift(fields[0], fields[1..], i, j, target);
      assert Cuts(fields[1..], i - 1, j - 1, target);
    }
    if i, j :| Cuts(fields[1..], i, j, target) {
      CutsShift(fields[0], fields[1..], i + 1, j + 1, target);
      assert Cuts(fields, i + 1, j + 1, target);
    }
  }

  lemma {:induction false} FirstMatchExists(fields: seq<Field>, target: nat, j: nat)
    requires j < |fields| && IsMatch(fields[j], target)
    ensures FirstMatch(fields, target).Some?
    decreases |fields|
  {
    if j > 0 { FirstMatchExists(fields[1..], target, j - 1); }
  }

  lemma {:induction false} FirstMatchPosition(fields: seq<Field>, target: nat) returns (j: nat)
    requires FirstMatch(fields, target).Some?
    ensures j < |fields| && IsMatch(fields[j], target) && forall k | 0 <= k < j :: !IsMatch(fields[k], target)
    decreases |fields|
  {
    if IsMatch(fields[0], target) {
      j := 0;
    } else {
      var i := FirstMatchPosition(fields[1..], target);
      j := i + 1;
      assert forall k | 0 < k < j :: fields[k] == fields[1..][k - 1];
    }
  }

  /** `get_bytes_field` is the whole-message search exactly when no other kind of field stands
      before the first match. */
  lemma {:induction false} LookUpIsWholeSearchIff(fields: seq<Field>, target: nat)
    ensures BytesField(Reading(fields, false), target) == Returned(FirstMatch(fields, target)) <==>
      !CutOff(fields, target)
    decreases |fields|
  {
    if fields != [] {
      if !fields[0].value.Bytes? {
        if FirstMatch(fields, target).Some? {
          var j := FirstMatchPosition(fields, target);
          assert Cuts(fields, 0, j, target);
        } else if i, j :| Cuts(fields, i, j, target) {
          FirstMatchExists(fields, target, j);
        }
      } else if fields[0].number != target {
        CutOffStep(fields, target);
        LookUpIsWholeSearchIff(fields[1..], target);
      } else {
        assert IsMatch(fields[0], target);
      }
    }
  }

  // ---------------------------------------------------------------------
  // parse_object_meta
  // ---------------------------------------------------------------------

  /** The JSON object built for metadata: empty, or a name with the members that are not empty. */
  datatype MetaJson =
    | NoMeta
    | Meta(name: bytes, generateName: Option<bytes>, namespace: Option<bytes>, uid: Option<bytes>,
           labels: Option<map<bytes, bytes>>)

  function OrEmpty(o: Option<bytes>): bytes {
    match o case Some(b) => b case None => []
  }

  function NonEmpty(b: bytes): Option<bytes> {
    if b == [] then None else Some(b)
  }

  function NonEmptyMap(m: map<bytes, bytes>): Option<map<bytes, bytes>> {
    if m == map[] then None else Some(m)
  }

  const LABELS := 11

  /** The label loop over the leading run of length-delimited fields. */
  function Labels(r: Reading, acc: map<bytes, bytes>): Outcome<map<bytes, bytes>>
    decreases |r.fields|
  {
    if r.fields == [] then (if r.overflowed then Panicked else Returned(acc))
    else
      var rest := Reading(r.fields[1..], r.overflowed);
      match r.fields[0]
      case Field(f, Bytes(b)) =>
        if f != LABELS then Labels(rest, acc)
        else (match (LookUp(b, 1), LookUp(b, 2))
              case (Returned(Some(k)), Returned(Some(v))) => Labels(rest, acc[k := v])
              case (Returned(_), Returned(_)) => Labels(rest, acc)
              case _ => Panicked)
      case _ => Returned(acc)
  }

  function ObjectMeta(msg: bytes, field: nat): Outcome<MetaJson> {
    match LookUp(msg, field)
    case Panicked => Panicked
    case Returned(None) => Returned(NoMeta)
    case Returned(Some(inner)) =>
      match (LookUp(inner, 1), LookUp(inner, 2), LookUp(inner, 3), LookUp(inner, 5), Labels(ReadAll(inner, 0), map[]))
      case (Returned(name), Returned(gen), Returned(ns), Returned(uid), Returned(labels)) =>
        Returned(Meta(OrEmpty(name), NonEmpty(OrEmpty(gen)), NonEmpty(OrEmpty(ns)), NonEmpty(OrEmpty(uid)),
                      NonEmptyMap(labels)))
      case _ => Panicked
  }

  method ParseLabels(inner: bytes) returns (r: Outcome<map<bytes, bytes>>)
    ensures r == Labels(ReadAll(inner, 0), map[])
  {
    var p := new Parser(inner);
    var labels: map<bytes, bytes> := map[];
    while true
      invariant p.data == inner && p.pos <= |inner|
      invariant Labels(ReadAll(inner, p.pos), labels) == Labels(ReadAll(inner, 0), map[])
      decreases |inner| - p.pos
    {
      ReadAllStep(inner, p.pos);
      var step := p.NextField();
      match step {
        case Got(Field(f, Bytes(b)), _) =>
          if f == LABELS {
            var k := GetBytesField(b, 1);
            if k.Panicked? { return Panicked; }
            var v := GetBytesField(b, 2);
            if v.Panicked? { return Panicked; }
            if k.value.Some? && v.value.Some? {
              labels := labels[k.value.value := v.value.value];
            }
          }
        case Overflow => return Panicked;
        case _ => return Returned(labels);
      }
    }
  }

  method ParseObjectMeta(msg: bytes, field: nat) returns (r: Outcome<MetaJson>)
    ensures r == ObjectMeta(msg, field)
  {
    var inner := GetBytesField(msg, field);
    if inner.Panicked? { return Panicked; }
    if inner.value.None? { return Returned(NoMeta); }
    var m := inner.value.value;
    var name := GetBytesField(m, 1);
    if name.Panicked? { return Panicked; }
    var gen := GetBytesField(m, 2);
    if gen.Panicked? { return Panicked; }
    var ns := GetBytesField(m, 3);
    if ns.Panicked? { return Panicked; }
    var uid := GetBytesField(m, 5);
    if uid.Panicked? { return Panicked; }
    var labels := ParseLabels(m);
    if labels.Panicked? { return Panicked; }
    return Returned(Meta(OrEmpty(name.value), NonEmpty(OrEmpty(gen.value)), NonEmpty(OrEmpty(ns.value)),
                         NonEmpty(OrEmpty(uid.value)), NonEmptyMap(labels.value)));
  }

  // ---------------------------------------------------------------------
  // An encoder, and the round trip
  // ---------------------------------------------------------------------

  function EntryFields(k: bytes, v: bytes): seq<Field> {
    [Field(1, Bytes(k)), Field(2, Bytes(v))]
  }

  function LabelFields(labels: seq<(bytes, bytes)>): seq<Field> {
    if labels == [] then []
    else [Field(11, Bytes(Serialize(EntryFields(labels[0].0, labels[0].1))))] + LabelFields(labels[1..])
  }

  function MapOf(labels: seq<(bytes, bytes)>, acc: map<bytes, bytes>): map<bytes, bytes> {
    if labels == [] then acc else MapOf(labels[1..], acc[labels[0].0 := labels[0].1])
  }

  /** Name, generate name, namespace and uid, then `between`, then one entry a label. */
  function MetaFields(name: bytes, gen: bytes, ns: bytes, uid: bytes, between: seq<Field>,
                      labels: seq<(bytes, bytes)>): seq<Field> {
    HeadFields(name, gen, ns, uid) + (between + LabelFields(labels))
  }

  function Message(field: nat, inner: seq<Field>): bytes {
    Serialize([Field(field, Bytes(Serialize(inner)))])
  }

  lemma MessageIsRead(field: nat, inner: seq<Field>)
    requires field < U32 && (forall f | f in inner :: WellFormed(f)) && |Message(field, inner)| < U64
    ensures LookUp(Message(field, inner), field) == Returned(Some(Serialize(inner)))
    ensures ReadAll(Serialize(inner), 0) == Reading(inner, false)
  {
    var f := Field(field, Bytes(Serialize(inner)));
    WireRoundTrip([f]);
    SerializedInside([f], f);
    WireRoundTrip(inner);
  }

  lemma {:induction false} SerializedInside(fields: seq<Field>, f: Field)
    requires f in fields && f.value.Bytes?
    ensures |f.value.b| <= |Serialize(fields)|
    decreases |fields|
  {
    if f != fields[0] { SerializedInside(fields[1..], f); }
  }

  lemma LabelEntryIsRead(k: bytes, v: bytes)
    requires |Serialize(EntryFields(k, v))| < U64
    ensures LookUp(Serialize(EntryFields(k, v)), 1) == Returned(Some(k))
    ensures LookUp(Serialize(EntryFields(k, v)), 2) == Returned(Some(v))
  {
    WireRoundTrip(EntryFields(k, v));
    var r := Reading(EntryFields(k, v), false);
    assert BytesField(r, 2) == BytesField(Reading(r.fields[1..], false), 2);
  }

  lemma {:induction false} LabelsAreRead(labels: seq<(bytes, bytes)>, acc: map<bytes, bytes>)
    requires |Serialize(LabelFields(labels))| < U64
    ensures Labels(Reading(LabelFields(labels), false), acc) == Returned(MapOf(labels, acc))
    ensures forall f | f in LabelFields(labels) :: WellFormed(f) && f.value.Bytes?
    decreases |labels|
  {
    if labels != [] {
      var fs := LabelFields(labels);
      SerializedInside(fs, fs[0]);
      assert fs[1..] == LabelFields(labels[1..]);
      LabelEntryIsRead(labels[0].0, labels[0].1);
      LabelsAreRead(labels[1..], acc[labels[0].0 := labels[0].1]);
    }
  }

  lemma {:induction false} LabelsSkip(front: seq<Field>, rest: seq<Field>, acc: map<bytes, bytes>)
    requires forall f | f in front :: f.value.Bytes? && f.number != LABELS
    ensures Labels(Reading(front + rest, false), acc) == Labels(Reading(rest, false), acc)
    decreases |front|
  {
    if front == [] {
      assert front + rest == rest;
    } else {
      assert (front + rest)[1..] == front[1..] + rest;
      LabelsSkip(front[1..], rest, acc);
    }
  }

  lemma {:induction false} SerializeOfConcat(a: seq<Field>, b: seq<Field>)
    ensures Serialize(a + b) == Serialize(a) + Serialize(b)
    decreases |a|
  {
    if a == [] {
      assert a + b == b;
    } else {
      assert (a + b)[1..] == a[1..] + b;
      SerializeOfConcat(a[1..], b);
    }
  }

  lemma {:induction false} LookUpSkips(front: seq<Field>, f: Field, rest: seq<Field>)
    requires f.value.Bytes? && forall g | g in front :: g.value.Bytes? && g.number != f.number
    ensures BytesField(Reading(front + [f] + rest, false), f.number) == Returned(Some(f.value.b))
    decreases |front|
  {
    var all := front + [f] + rest;
    if front == [] {
      assert all[0] == f;
    } else {
      assert all[1..] == front[1..] + [f] + rest;
      LookUpSkips(front[1..], f, rest);
    }
  }

  function HeadFields(name: bytes, gen: bytes, ns: bytes, uid: bytes): seq<Field> {
    [Field(1, Bytes(name)), Field(2, Bytes(gen)), Field(3, Bytes(ns)), Field(5, Bytes(uid))]
  }

  lemma HeadFieldsAreRead(name: bytes, gen: bytes, ns: bytes, uid: bytes, tail: seq<Field>)
    ensures var r := Reading(HeadFields(name, gen, ns, uid) + tail, false);
            && BytesField(r, 1) == Returned(Some(name)) && BytesField(r, 2) == Returned(Some(gen))
            && BytesField(r, 3) == Returned(Some(ns)) && BytesField(r, 5) == Returned(Some(uid))
  {
    var h := HeadFields(name, gen, ns, uid);
    forall i | 0 <= i < 4 ensures BytesField(Reading(h + tail, false), h[i].number) == Returned(Some(h[i].value.b)) {
      assert h + tail == h[..i] + [h[i]] + (h[i + 1..] + tail);
      LookUpSkips(h[..i], h[i], h[i + 1..] + tail);
    }
    assert h[0].number == 1 && h[1].number == 2 && h[2].number == 3 && h[3].number == 5;
  }

  lemma ObjectMetaOfFields(field: nat, name: bytes, gen: bytes, ns: bytes, uid: bytes, tail: seq<Field>,
                           labels: map<bytes, bytes>)
    requires field < U32 && (forall f | f in tail :: WellFormed(f))
    requires |Message(field, HeadFields(name, gen, ns, uid) + tail)| < U64
    requires Labels(Reading(tail, false), map[]) == Returned(labels)
    ensures ObjectMeta(Message(field, HeadFields(name, gen, ns, uid) + tail), field)
            == Returned(Meta(name, NonEmpty(gen), NonEmpty(ns), NonEmpty(uid), NonEmptyMap(labels)))
  {
    var inner := HeadFields(name, gen, ns, uid) + tail;
    MessageIsRead(field, inner);
    HeadFieldsAreRead(name, gen, ns, uid, tail);
    LabelsSkip(HeadFields(name, gen, ns, uid), tail, map[]);
  }

  lemma LabelSizes(field: nat, head: seq<Field>, between: seq<Field>, labels: seq<(bytes, bytes)>)
    requires |Message(field, head + (between + LabelFields(labels)))| < U64
    ensures |Serialize(LabelFields(labels))| < U64
  {
    var inner := head + (between + LabelFields(labels));
    SerializedInside([Field(field, Bytes(Serialize(inner)))], Field(field, Bytes(Serialize(inner))));
    SerializeOfConcat(head, between + LabelFields(labels));
    SerializeOfConcat(between, LabelFields(labels));
  }

  predicate AllBytes(fields: seq<Field>) {
    forall f | f in fields :: f.value.Bytes?
  }

  /** A field of another kind ends the label loop. */
  lemma {:induction false} LabelsStop(front: seq<Field>, rest: seq<Field>, acc: map<bytes, bytes>)
    requires !AllBytes(front) && forall f | f in front :: f.number != LABELS
    ensures Labels(Reading(front + rest, false), acc) == Returned(acc)
    decreases |front|
  {
    assert (front + rest)[1..] == front[1..] + rest;
    if front[0].value.Bytes? {
      LabelsStop(front[1..], rest, acc);
    }
  }

  lemma {:induction false} MapOfGrows(labels: seq<(bytes, bytes)>, acc: map<bytes, bytes>, k: bytes)
    requires k in acc
    ensures k in MapOf(labels, acc)
    decreases |labels|
  {
    if labels != [] { MapOfGrows(labels[1..], acc[labels[0].0 := labels[0].1], k); }
  }

  lemma NoLabelsIff(labels: seq<(bytes, bytes)>)
    ensures MapOf(labels, map[]) == map[] <==> labels == []
  {
    if labels != [] { MapOfGrows(labels[1..], map[labels[0].0 := labels[0].1], labels[0].0); }
  }

  /** With any other fields in front of them, the labels are read exactly when those fields are all
      length-delimited, or when there are no labels. */
  lemma LabelsRecoveredIff(between: seq<Field>, labels: seq<(bytes, bytes)>)
    requires (forall f | f in between :: f.number != LABELS) && |Serialize(LabelFields(labels))| < U64
    ensures Labels(Reading(between + LabelFields(labels), false), map[]) ==
            Returned(if AllBytes(between) then MapOf(labels, map[]) else map[])
    ensures Labels(Reading(between + LabelFields(labels), false), map[]) == Returned(MapOf(labels, map[]))
            <==> AllBytes(between) || labels == []
  {
    NoLabelsIff(labels);
    if AllBytes(between) {
      LabelsSkip(between, LabelFields(labels), map[]);
      LabelsAreRead(labels, map[]);
    } else {
      LabelsStop(between, LabelFields(labels), map[]);
    }
  }

  /** `parse_object_meta` inverts an encoder of any name, generate name, namespace, uid and labels, with any fields
      between, exactly when those fields are all length-delimited or there are no labels. */
  lemma ObjectMetaRoundTripIff(field: nat, name: bytes, gen: bytes, ns: bytes, uid: bytes,
                               between: seq<Field>, labels: seq<(bytes, bytes)>)
    requires field < U32 && forall f | f in between :: WellFormed(f) && f.number != LABELS
    requires |Message(field, MetaFields(name, gen, ns, uid, between, labels))| < U64
    ensures ObjectMeta(Message(field, MetaFields(name, gen, ns, uid, between, labels)), field)
            == MetaOf(Some(name), Some(gen), Some(ns), Some(uid), Returned(MapOf(labels, map[])))
            <==> AllBytes(between) || labels == []
  {
    LabelSizes(field, HeadFields(name, gen, ns, uid), between, labels);
    LabelsAreRead(labels, map[]);
    LabelsRecoveredIff(between, labels);
    NoLabelsIff(labels);
    var read := if AllBytes(between) then MapOf(labels, map[]) else map[];
    ObjectMetaOfFields(field, name, gen, ns, uid, between + LabelFields(labels), read);
  }

  // ---------------------------------------------------------------------
  // Any fields in any order
  // ---------------------------------------------------------------------

  /** The match a look-up finds: the first in the message, unless it is cut off. */
  ghost function Seen(fields: seq<Field>, target: nat): Option<bytes> {
    if CutOff(fields, target) then None else FirstMatch(fields, target)
  }

  lemma {:induction false} NothingOrFirst(fields: seq<Field>, target: nat)
    ensures BytesField(Reading(fields, false), target) in {Returned(None), Returned(FirstMatch(fields, target))}
    decreases |fields|
  {
    if fields != [] && fields[0].value.Bytes? && fields[0].number != target {
      NothingOrFirst(fields[1..], target);
    }
  }

  lemma LookUpSees(fields: seq<Field>, target: nat)
    ensures BytesField(Reading(fields, false), target) == Returned(Seen(fields, target))
  {
    LookUpIsWholeSearchIff(fields, target);
    NothingOrFirst(fields, target);
  }

  /** The labels of the whole message. */
  function WholeLabels(fields: seq<Field>, acc: map<bytes, bytes>): Outcome<map<bytes, bytes>>
    decreases |fields|
  {
    if fields == [] then Returned(acc)
    else match fields[0]
      case Field(f, Bytes(b)) =>
        if f != LABELS then WholeLabels(fields[1..], acc)
        else (match (LookUp(b, 1), LookUp(b, 2))
              case (Returned(Some(k)), Returned(Some(v))) => WholeLabels(fields[1..], acc[k := v])
              case (Returned(_), Returned(_)) => WholeLabels(fields[1..], acc)
              case _ => Panicked)
      case _ => WholeLabels(fields[1..], acc)
  }

  predicate IsLabel(f: Field) {
    f.number == 11 && f.value.Bytes?
  }

  /** A label stands behind a field of another kind. */
  predicate LabelBehind(fields: seq<Field>) {
    exists i, j | 0 <= i < j < |fields| :: !fields[i].value.Bytes? && IsLabel(fields[j])
  }

  lemma {:induction false} NoLabelsLeft(fields: seq<Field>, acc: map<bytes, bytes>)
    requires forall f | f in fields :: !IsLabel(f)
    ensures WholeLabels(fields, acc) == Returned(acc)
    decreases |fields|
  {
    if fields != [] {
      assert fields[0] in fields && !IsLabel(fields[0]);
      NoLabelsLeft(fields[1..], acc);
    }
  }

  lemma {:induction false} LabelsAreWhole(fields: seq<Field>, acc: map<bytes, bytes>)
    requires !LabelBehind(fields)
    ensures Labels(Reading(fields, false), acc) == WholeLabels(fields, acc)
    decreases |fields|
  {
    if fields != [] {
      var rest := fields[1..];
      if fields[0].value.Bytes? {
        forall i, j | 0 <= i < j < |rest| ensures !(!rest[i].value.Bytes? && IsLabel(rest[j])) {
          assert rest[i] == fields[i + 1] && rest[j] == fields[j + 1];
        }
        match (LookUp(fields[0].value.b, 1), LookUp(fields[0].value.b, 2)) {
          case (Returned(Some(k)), Returned(Some(v))) =>
            LabelsAreWhole(rest, acc[k := v]);
            LabelsAreWhole(rest, acc);
          case _ =>
            LabelsAreWhole(rest, acc);
        }
      } else {
        forall f | f in rest ensures !IsLabel(f) {
          var j :| 0 <= j < |rest| && rest[j] == f;
          assert fields[j + 1] == f;
        }
        NoLabelsLeft(rest, acc);
      }
    }
  }

  /** The JSON object for these members: the name always, the others unless they are missing or empty. */
  function MetaOf(name: Option<bytes>, gen: Option<bytes>, ns: Option<bytes>, uid: Option<bytes>,
                  labels: Outcome<map<bytes, bytes>>): Outcome<MetaJson>
  {
    match labels
    case Panicked => Panicked
    case Returned(m) =>
      Returned(Meta(if name.Some? then name.value else [], if gen == Some([]) then None else gen,
                    if ns == Some([]) then None else ns, if uid == Some([]) then None else uid,
                    if m == map[] then None else Some(m)))
  }

  function WholeMeta(fields: seq<Field>): Outcome<MetaJson> {
    MetaOf(FirstMatch(fields, 1), FirstMatch(fields, 2), FirstMatch(fields, 3), FirstMatch(fields, 5),
           WholeLabels(fields, map[]))
  }

  /** The text is found, or there is none to lose. */
  ghost predicate Kept(fields: seq<Field>, target: nat) {
    !CutOff(fields, target) || OrEmpty(FirstMatch(fields, target)) == []
  }

  lemma SeenIsKept(fields: seq<Field>, target: nat)
    ensures OrEmpty(Seen(fields, target)) == OrEmpty(FirstMatch(fields, target)) <==> Kept(fields, target)
  {
  }

  /** For any fields in any order: what `parse_object_meta` makes of a message, by the look-ups' cut-offs. */
  lemma ObjectMetaOfAnyFields(field: nat, fields: seq<Field>)
    requires field < U32 && (forall f | f in fields :: WellFormed(f)) && |Message(field, fields)| < U64
    ensures ObjectMeta(Message(field, fields), field) ==
            MetaOf(Seen(fields, 1), Seen(fields, 2), Seen(fields, 3), Seen(fields, 5),
                   Labels(Reading(fields, false), map[]))
  {
    MessageIsRead(field, fields);
    LookUpSees(fields, 1);
    LookUpSees(fields, 2);
    LookUpSees(fields, 3);
    LookUpSees(fields, 5);
  }

  /** For any fields in any order, with no label behind a field of another kind: the result is that of whole-message
      searches exactly when no text that is not empty is cut off, or a label entry cannot be read. */
  lemma ObjectMetaIsWholeIff(field: nat, fields: seq<Field>)
    requires field < U32 && (forall f | f in fields :: WellFormed(f)) && |Message(field, fields)| < U64
    requires !LabelBehind(fields)
    ensures ObjectMeta(Message(field, fields), field) == WholeMeta(fields) <==>
            WholeLabels(fields, map[]).Panicked?
            || (Kept(fields, 1) && Kept(fields, 2) && Kept(fields, 3) && Kept(fields, 5))
  {
    ObjectMetaOfAnyFields(field, fields);
    LabelsAreWhole(fields, map[]);
    SeenIsKept(fields, 1);
    SeenIsKept(fields, 2);
    SeenIsKept(fields, 3);
    SeenIsKept(fields, 5);
  }

  // ---------------------------------------------------------------------
  // Overflowing lengths
  // ---------------------------------------------------------------------

  /** A search for a length-delimited field stops at an overflowing length exactly when it gets there: all fields before
      are length-delimited and none has the number. */
  lemma {:induction false} LookUpPanicsIff(r: Reading, target: nat)
    ensures BytesField(r, target).Panicked? <==>
            r.overflowed && forall f | f in r.fields :: f.value.Bytes? && f.number != target
    decreases |r.fields|
  {
    if r.fields != [] {
      var rest := Reading(r.fields[1..], r.overflowed);
      LookUpPanicsIff(rest, target);
      assert r.fields == [r.fields[0]] + rest.fields;
    }
  }

  /** A search for a varint does so exactly when no varint with the number stands before. */
  lemma {:induction false} VarintPanicsIff(r: Reading, target: nat)
    ensures VarintField(r, target).Panicked? <==> r.overflowed && NoVarint(r.fields, target)
    decreases |r.fields|
  {
    if r.fields != [] {
      var rest := Reading(r.fields[1..], r.overflowed);
      VarintPanicsIff(rest, target);
      assert forall j | 0 < j < |r.fields| :: r.fields[j] == rest.fields[j - 1];
    }
  }

  /** A label entry whose key or value cannot be searched. */
  ghost predicate BadEntry(f: Field) {
    IsLabel(f) && (LookUp(f.value.b, 1).Panicked? || LookUp(f.value.b, 2).Panicked?)
  }

  /** The label loop panics exactly at a bad entry, or at an overflowing length, that it gets to. */
  lemma {:induction false} LabelsPanicIff(r: Reading, acc: map<bytes, bytes>)
    ensures Labels(r, acc).Panicked? <==>
            (exists i | 0 <= i < |r.fields| :: BadEntry(r.fields[i]) && AllBytes(r.fields[..i]))
            || (r.overflowed && AllBytes(r.fields))
    decreases |r.fields|
  {
    if r.fields != [] {
      var first, rest := r.fields[0], Reading(r.fields[1..], r.overflowed);
      BadEntryStep(r.fields);
      assert r.fields == [first] + rest.fields;
      assert AllBytes(r.fields) <==> first.value.Bytes? && AllBytes(rest.fields);
      if first.value.Bytes? && !BadEntry(first) {
        if IsLabel(first) && LookUp(first.value.b, 1).value.Some? && LookUp(first.value.b, 2).value.Some? {
          LabelsPanicIff(rest, acc[LookUp(first.value.b, 1).value.value := LookUp(first.value.b, 2).value.value]);
        } else {
          LabelsPanicIff(rest, acc);
        }
      }
    }
  }

  lemma BadEntryStep(fields: seq<Field>)
    requires fields != []
    ensures (exists i | 0 <= i < |fields| :: BadEntry(fields[i]) && AllBytes(fields[..i])) <==>
            BadEntry(fields[0])
            || (fields[0].value.Bytes?
                && exists i | 0 <= i < |fields[1..]| :: BadEntry(fields[1..][i]) && AllBytes(fields[1..][..i]))
  {
    var rest := fields[1..];
    forall i | 0 < i < |fields| ensures AllBytes(fields[..i]) <==> fields[0].value.Bytes? && AllBytes(rest[..i - 1]) {
      assert fields[..i] == [fields[0]] + rest[..i - 1];
    }
    assert AllBytes(fields[..0]);
    if i :| 0 <= i < |fields| && BadEntry(fields[i]) && AllBytes(fields[..i]) {
      assert i > 0 ==> rest[i - 1] == fields[i] && AllBytes(rest[..i - 1]);
    }
    if i :| 0 <= i < |rest| && fields[0].value.Bytes? && BadEntry(rest[i]) && AllBytes(rest[..i]) {
      assert fields[i + 1] == rest[i] && AllBytes(fields[..i + 1]);
    }
  }

  /** The generation, a varint, in front of the labels makes the decoder lose all of them. */
  lemma LabelsAreCutOff(field: nat, name: bytes, gen: bytes, ns: bytes, uid: bytes,
                        generation: nat, labels: seq<(bytes, bytes)>)
    requires field < U32 && generation < U64
    requires |Message(field, MetaFields(name, gen, ns, uid, [Field(7, Varint(generation))], labels))| < U64
    ensures ObjectMeta(Message(field, MetaFields(name, gen, ns, uid, [Field(7, Varint(generation))], labels)), field)
            == MetaOf(Some(name), Some(gen), Some(ns), Some(uid), Returned(map[]))
  {
    var cut := [Field(7, Varint(generation))];
    LabelSizes(field, HeadFields(name, gen, ns, uid), cut, labels);
    LabelsAreRead(labels, map[]);
    ObjectMetaOfFields(field, name, gen, ns, uid, cut + LabelFields(labels), map[]);
  }
}
