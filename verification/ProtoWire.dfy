/** The protobuf wire-format reader of the API server, against the "Protocol Buffers Encoding" guide. */
module ProtoWire {
  import opened Prelude

  const U64: nat := 0x1_0000_0000_0000_0000
  const U32: nat := 0x1_0000_0000

  // ---------------------------------------------------------------------
  // Base 128 varints
  // ---------------------------------------------------------------------

  /** Outcome of reading a varint. The position moves even when reading fails. */
  datatype VarintRead = VarintRead(value: Option<nat>, next: nat)

  /** The reading loop: `acc` is below 2^shift, so the code's bitwise or is an addition, and the
      left shift of a 64-bit word drops the bits above 2^64. */
  function ReadVarintFrom(data: bytes, pos: nat, shift: nat, acc: nat): VarintRead
    decreases 64 - shift, pos
  {
    if pos >= |data| then VarintRead(None, pos)
    else
      var b := data[pos];
      var acc' := acc + Shl(b % 128, shift) % U64;
      if b < 128 then VarintRead(Some(acc'), pos + 1)
      else if shift + 7 >= 64 then VarintRead(None, pos + 1)
      else ReadVarintFrom(data, pos + 1, shift + 7, acc')
  }

  function VarintAt(data: bytes, pos: nat): VarintRead {
    ReadVarintFrom(data, pos, 0, 0)
  }

  /** The guide's meaning of a varint: seven payload bits a byte, least significant group first. */
  function PayloadValue(bs: bytes): nat {
    if bs == [] then 0 else bs[0] % 128 + 128 * PayloadValue(bs[1..])
  }

  /** `bs` is one varint: continuation bits on all bytes but the last. */
  ghost predicate OneVarint(bs: bytes) {
    bs != [] && bs[|bs| - 1] < 128 && forall i | 0 <= i < |bs| - 1 :: bs[i] >= 128
  }

  const U63: nat := 0x8000_0000_0000_0000

  /** Below bit 63 a group of seven bits is added whole. */
  lemma LowGroup(acc: nat, g: nat, shift: nat)
    requires g < 128 && acc < Shl(1, shift) && shift <= 56
    ensures acc + Shl(g, shift) < Shl(1, shift + 7) <= U63
  {
    ShlAdd(g, 1, shift);
    ShlMonotone(g + 1, 128, shift);
    assert Shl(1, 7) == 128;
    ShlTwice(1, 7, shift);
    ShlTwice(1, 63 - (shift + 7), shift + 7);
    assert Shl(1, 63 - (shift + 7)) >= 1 by { ShlIsMultiplication(1, 63 - (shift + 7)); }
    ShlMonotone(1, Shl(1, 63 - (shift + 7)), shift + 7);
    ShlIsMultiplication(1, 63);
    Pow2Values();
  }

  /** The last group may reach bit 63, where only its lowest bit survives. */
  lemma LastGroup(acc: nat, g: nat, shift: nat)
    requires g < 128 && shift <= 63 && shift % 7 == 0 && acc < Shl(1, shift)
    ensures acc + Shl(g, shift) % U64 == (acc + Shl(g, shift)) % U64
  {
    if shift < 63 {
      LowGroup(acc, g, shift);
      SmallModulo(Shl(g, shift));
      SmallModulo(acc + Shl(g, shift));
    } else {
      TopShift(1, shift);
      TopShift(g, shift);
      TopGroup(acc, g, Shl(g, shift));
    }
  }

  lemma SmallModulo(x: nat)
    requires x < U64
    ensures x % U64 == x
  {
  }

  lemma TopShift(v: nat, shift: nat)
    requires shift == 63
    ensures Shl(v, shift) == v * U63
  {
    ShlIsMultiplication(v, shift);
    Pow2Values();
  }

  lemma TopGroup(acc: nat, g: nat, x: nat)
    requires g < 128 && acc < U63 && x == g * U63
    ensures acc + x % U64 == (acc + x) % U64
  {
  }

  lemma OneVarintCons(b: byte, rest: bytes)
    requires b >= 128 && OneVarint(rest)
    ensures OneVarint([b] + rest)
  {
    var all := [b] + rest;
    assert forall i | 0 < i < |all| :: all[i] == rest[i - 1];
  }

  /** Reading stays in bounds, and what it accepts is one varint of at most ten bytes. */
  lemma {:induction false} ReadVarintShape(data: bytes, pos: nat, shift: nat, acc: nat)
    requires pos <= |data| && shift <= 63 && shift % 7 == 0
    ensures var r := ReadVarintFrom(data, pos, shift, acc);
            pos <= r.next <= |data| &&
            (r.value.Some? ==> OneVarint(data[pos..r.next]) && 7 * (r.next - pos) <= 70 - shift)
    decreases 64 - shift
  {
    if pos < |data| && data[pos] >= 128 && shift <= 56 {
      var acc' := acc + Shl(data[pos] % 128, shift) % U64;
      ReadVarintShape(data, pos + 1, shift + 7, acc');
      var r := ReadVarintFrom(data, pos + 1, shift + 7, acc');
      if r.value.Some? {
        OneVarintCons(data[pos], data[pos + 1..r.next]);
        assert data[pos..r.next] == [data[pos]] + data[pos + 1..r.next];
      }
    }
  }

  lemma PayloadCons(data: bytes, pos: nat, end: nat)
    requires pos < end <= |data|
    ensures PayloadValue(data[pos..end]) == data[pos] % 128 + 128 * PayloadValue(data[pos + 1..end])
  {
    assert data[pos..end][1..] == data[pos + 1..end];
  }

  /** What reading yields is the payload, modulo 2^64. */
  lemma {:induction false} ReadVarintValue(data: bytes, pos: nat, shift: nat, acc: nat)
    requires pos <= |data| && shift <= 63 && shift % 7 == 0 && acc < Shl(1, shift)
    requires ReadVarintFrom(data, pos, shift, acc).value.Some?
    requires pos < ReadVarintFrom(data, pos, shift, acc).next <= |data|
    ensures var r := ReadVarintFrom(data, pos, shift, acc);
            r.value.value == (acc + Shl(PayloadValue(data[pos..r.next]), shift)) % U64
    decreases 64 - shift
  {
    var g := data[pos] % 128;
    var end := ReadVarintFrom(data, pos, shift, acc).next;
    PayloadCons(data, pos, end);
    if data[pos] < 128 {
      assert data[pos + 1..end] == [];
      LastGroup(acc, g, shift);
    } else {
      LowGroup(acc, g, shift);
      SmallModulo(Shl(g, shift));
      var acc' := acc + Shl(g, shift);
      ReadVarintShape(data, pos + 1, shift + 7, acc');
      ReadVarintValue(data, pos + 1, shift + 7, acc');
      ValueStep(acc, g, shift, PayloadValue(data[pos + 1..end]), PayloadValue(data[pos..end]),
                ReadVarintFrom(data, pos, shift, acc).value.value);
    }
  }

  lemma ValueStep(acc: nat, g: nat, shift: nat, rest: nat, whole: nat, value: nat)
    requires value == (acc + Shl(g, shift) + Shl(rest, shift + 7)) % U64
    requires whole == g + 128 * rest
    ensures value == (acc + Shl(whole, shift)) % U64
  {
    ShiftedPayload(g, shift, rest);
  }

  /** A varint of at most ten bytes stands at the position and ends at `end`. */
  ghost predicate VarintBetween(data: bytes, pos: nat, end: nat) {
    pos < end <= |data| && end - pos <= 10 && OneVarint(data[pos..end])
  }

  /** Reading succeeds exactly where a varint of at most ten bytes stands, and yields its payload modulo 2^64. */
  lemma ReadVarintMeaning(data: bytes, pos: nat)
    requires pos <= |data|
    ensures VarintAt(data, pos).value.Some? <==> exists end: nat :: VarintBetween(data, pos, end)
    ensures var r := VarintAt(data, pos);
            pos <= r.next <= |data| &&
            (r.value.Some? ==> VarintBetween(data, pos, r.next)
                               && r.value.value == PayloadValue(data[pos..r.next]) % U64)
  {
    if end: nat :| VarintBetween(data, pos, end) {
      VarintIsRead(data, pos, end, 0, 0);
    }
    ReadVarintShape(data, pos, 0, 0);
    var r := VarintAt(data, pos);
    if r.value.Some? {
      assert pos < r.next by { assert OneVarint(data[pos..r.next]); }
      assert VarintBetween(data, pos, r.next);
      assert Shl(1, 0) == 1;
      ReadVarintValue(data, pos, 0, 0);
      assert Shl(PayloadValue(data[pos..r.next]), 0) == PayloadValue(data[pos..r.next]);
    }
  }

  lemma ShiftedPayload(g: nat, shift: nat, v: nat)
    ensures Shl(g, shift) + Shl(v, shift + 7) == Shl(g + 128 * v, shift)
  {
    assert Shl(v, 7) == 128 * v by { ShlIsMultiplication(v, 7); Pow2Values(); }
    ShlTwice(v, 7, shift);
    ShlAdd(g, 128 * v, shift);
  }

  /** Conversely, a varint of at most ten bytes is read, wherever it stands. */
  lemma {:induction false} VarintIsRead(data: bytes, pos: nat, end: nat, shift: nat, acc: nat)
    requires pos < end <= |data| && OneVarint(data[pos..end]) && 7 * (end - pos) <= 70 - shift
    requires shift <= 63 && shift % 7 == 0
    ensures var r := ReadVarintFrom(data, pos, shift, acc); r.value.Some? && r.next == end
    decreases 64 - shift
  {
    var v := data[pos..end];
    assert v[0] == data[pos] && v[|v| - 1] == data[end - 1];
    if end > pos + 1 {
      assert v[0] >= 128;
      assert data[pos + 1..end] == v[1..];
      VarintIsRead(data, pos + 1, end, shift + 7, acc + Shl(data[pos] % 128, shift) % U64);
    }
  }

  /** The shortest varint of a number, as encoders write it. */
  function EncodeVarint(n: nat): bytes {
    if n < 128 then [n] else [n % 128 + 128] + EncodeVarint(n / 128)
  }

  lemma {:induction false} EncodedVarint(n: nat, width: nat)
    requires n < Shl(1, 7 * width) && width > 0
    ensures OneVarint(EncodeVarint(n)) && PayloadValue(EncodeVarint(n)) == n && |EncodeVarint(n)| <= width
    decreases n
  {
    var e := EncodeVarint(n);
    if n < 128 {
      assert PayloadValue(e) == e[0] % 128 + 128 * PayloadValue(e[1..]);
    } else {
      assert width > 1 by { assert Shl(1, 7) == 128; }
      assert n / 128 < Shl(1, 7 * (width - 1)) by {
        ShlTwice(1, 7 * (width - 1), 7);
        ShlIsMultiplication(Shl(1, 7 * (width - 1)), 7);
        Pow2Values();
      }
      EncodedVarint(n / 128, width - 1);
      assert e[1..] == EncodeVarint(n / 128);
    }
  }

  lemma TenGroupsSuffice(n: nat)
    requires n < U64
    ensures n < Shl(1, 70)
  {
    ShlIsMultiplication(1, 70);
    Pow2Values();
    Pow2Monotone(64, 70);
  }

  lemma VarintRoundTrip(data: bytes, pos: nat, n: nat)
    requires n < U64 && HoldsAt(data, pos, EncodeVarint(n))
    ensures VarintAt(data, pos) == VarintRead(Some(n), pos + |EncodeVarint(n)|)
  {
    TenGroupsSuffice(n);
    EncodedVarint(n, 10);
    VarintIsRead(data, pos, pos + |EncodeVarint(n)|, 0, 0);
    ReadVarintMeaning(data, pos);
    SmallModulo(n);
  }

  // ---------------------------------------------------------------------
  // Fields
  // ---------------------------------------------------------------------

  datatype Value = Varint(n: nat) | Fixed64(n: nat) | Bytes(b: bytes) | Fixed32(n: nat)

  datatype Field = Field(number: nat, value: Value)

  /** One call of `next_field`. `Overflow` is a length so large that `pos + len` leaves the machine
      word, where the call does not return. */
  datatype Step = Got(field: Field, next: nat) | End(next: nat) | Overflow

  function FieldAt(data: bytes, pos: nat): Step {
    var tag := VarintAt(data, pos);
    if tag.value.None? then End(tag.next) else
    var number := tag.value.value / 8 % U32;
    var wire := tag.value.value % 8;
    var p := tag.next;
    if wire == 0 then
      var n := VarintAt(data, p);
      if n.value.None? then End(n.next) else Got(Field(number, Varint(n.value.value)), n.next)
    else if wire == 1 then
      if p + 8 > |data| then End(p) else Got(Field(number, Fixed64(FromLittleEndian(data[p..p + 8]))), p + 8)
    else if wire == 2 then
      var len := VarintAt(data, p);
      if len.value.None? then End(len.next)
      else if len.next + len.value.value >= U64 then Overflow
      else if len.next + len.value.value > |data| then End(len.next)
      else Got(Field(number, Bytes(data[len.next..len.next + len.value.value])), len.next + len.value.value)
    else if wire == 5 then
      if p + 4 > |data| then End(p) else Got(Field(number, Fixed32(FromLittleEndian(data[p..p + 4]))), p + 4)
    else End(p)
  }

  /** On any bytes a successful call moves strictly forward and stays within the buffer. */
  lemma FieldAdvances(data: bytes, pos: nat)
    requires pos <= |data|
    ensures FieldAt(data, pos).Got? ==> pos < FieldAt(data, pos).next <= |data|
    ensures FieldAt(data, pos).End? ==> pos <= FieldAt(data, pos).next <= |data|
  {
    ReadVarintMeaning(data, pos);
    ReadVarintMeaning(data, VarintAt(data, pos).next);
  }

  /** `struct Parser`: a buffer and a position. */
  class Parser {
    const data: bytes
    var pos: nat

    constructor (data: bytes)
      ensures this.data == data && pos == 0
    {
      this.data := data;
      pos := 0;
    }

    method ReadVarint() returns (value: Option<nat>)
      requires pos <= |data|
      modifies this
      ensures VarintRead(value, pos) == VarintAt(data, old(pos))
      ensures pos <= |data|
    {
      var result: nat, shift: nat := 0, 0;
      ReadVarintMeaning(data, pos);
      while true
        invariant shift <= 63 && pos <= |data|
        invariant ReadVarintFrom(data, pos, shift, result) == VarintAt(data, old(pos))
        decreases 64 - shift
      {
        if pos >= |data| { return None; }
        var b := data[pos];
        pos := pos + 1;
        result := result + Shl(b % 128, shift) % U64;
        if b < 128 { return Some(result); }
        shift := shift + 7;
        if shift >= 64 { return None; }
      }
    }

    method NextField() returns (step: Step)
      requires pos <= |data|
      modifies this
      ensures step == FieldAt(data, old(pos))
      ensures pos <= |data|
      ensures !step.Overflow? ==> pos == step.next
    {
      var tag := ReadVarint();
      if tag.None? { return End(pos); }
      var number := tag.value / 8 % U32;
      match tag.value % 8 {
        case 0 =>
          var n := ReadVarint();
          if n.None? { return End(pos); }
          return Got(Field(number, Varint(n.value)), pos);
        case 1 =>
          if pos + 8 > |data| { return End(pos); }
          var v := FromLittleEndian(data[pos..pos + 8]);
          pos := pos + 8;
          return Got(Field(number, Fixed64(v)), pos);
        case 2 =>
          var len := ReadVarint();
          if len.None? { return End(pos); }
          if pos + len.value >= U64 { return Overflow; }
          if pos + len.value > |data| { return End(pos); }
          var b := data[pos..pos + len.value];
          pos := pos + len.value;
          return Got(Field(number, Bytes(b)), pos);
        case 5 =>
          if pos + 4 > |data| { return End(pos); }
          var v := FromLittleEndian(data[pos..pos + 4]);
          pos := pos + 4;
          return Got(Field(number, Fixed32(v)), pos);
        case _ =>
          return End(pos);
      }
    }
  }

  /** What repeated calls of `next_field` yield, and whether they end by running dry. */
  datatype Reading = Reading(fields: seq<Field>, overflowed: bool)

  function ReadAll(data: bytes, pos: nat): Reading
    requires pos <= |data|
    decreases |data| - pos
  {
    FieldAdvances(data, pos);
    match FieldAt(data, pos)
    case Got(f, next) => var rest := ReadAll(data, next); Reading([f] + rest.fields, rest.overflowed)
    case End(_) => Reading([], false)
    case Overflow => Reading([], true)
  }

  // ---------------------------------------------------------------------
  // Serialisation and the wire round trip
  // ---------------------------------------------------------------------

  function WireType(v: Value): nat {
    match v case Varint(_) => 0 case Fixed64(_) => 1 case Bytes(_) => 2 case Fixed32(_) => 5
  }

  function SerializeValue(v: Value): bytes {
    match v
    case Varint(n) => EncodeVarint(n)
    case Fixed64(n) => ToLittleEndian(n, 8)
    case Bytes(b) => EncodeVarint(|b|) + b
    case Fixed32(n) => ToLittleEndian(n, 4)
  }

  function SerializeField(f: Field): bytes {
    EncodeVarint(8 * f.number + WireType(f.value)) + SerializeValue(f.value)
  }

  function Serialize(fields: seq<Field>): bytes {
    if fields == [] then [] else SerializeField(fields[0]) + Serialize(fields[1..])
  }

  /** Field numbers of 32 bits, which includes the 29 bits the guide allows; words in range. */
  predicate WellFormed(f: Field) {
    f.number < U32 &&
    match f.value
    case Varint(n) => n < U64
    case Fixed64(n) => n < U64
    case Bytes(_) => true
    case Fixed32(n) => n < U32
  }

  lemma FixedRoundTrip(n: nat, width: nat)
    requires (width == 4 && n < U32) || (width == 8 && n < U64)
    ensures FromLittleEndian(ToLittleEndian(n, width)) == n
  {
    Pow2Values();
    LittleEndianRoundTrip(n, width);
  }

  lemma TagRoundTrip(data: bytes, pos: nat, f: Field)
    requires WellFormed(f) && HoldsAt(data, pos, SerializeField(f))
    ensures var tag := VarintAt(data, pos);
            && tag.value.Some? && tag.value.value / 8 % U32 == f.number && tag.value.value % 8 == WireType(f.value)
            && HoldsAt(data, tag.next, SerializeValue(f.value))
            && tag.next + |SerializeValue(f.value)| == pos + |SerializeField(f)|
  {
    var tag := 8 * f.number + WireType(f.value);
    HoldsSplit(data, pos, EncodeVarint(tag), SerializeValue(f.value));
    VarintRoundTrip(data, pos, tag);
    assert tag / 8 == f.number;
  }

  lemma FieldRoundTrip(data: bytes, pos: nat, f: Field)
    requires WellFormed(f) && HoldsAt(data, pos, SerializeField(f)) && |data| < U64
    ensures FieldAt(data, pos) == Got(f, pos + |SerializeField(f)|)
  {
    TagRoundTrip(data, pos, f);
    var p := VarintAt(data, pos).next;
    match f.value
    case Varint(n) => VarintRoundTrip(data, p, n);
    case Fixed64(n) => FixedRoundTrip(n, 8);
    case Bytes(b) => LengthIsRead(data, p, b);
    case Fixed32(n) => FixedRoundTrip(n, 4);
  }

  lemma LengthIsRead(data: bytes, p: nat, b: bytes)
    requires HoldsAt(data, p, EncodeVarint(|b|) + b) && |data| < U64
    ensures var len := VarintAt(data, p);
            && len.value == Some(|b|) && len.next + |b| == p + |EncodeVarint(|b|) + b| <= |data|
            && data[len.next..len.next + |b|] == b
  {
    HoldsSplit(data, p, EncodeVarint(|b|), b);
    VarintRoundTrip(data, p, |b|);
  }

  lemma TagIsRead(data: bytes, pos: nat, number: nat, kind: nat)
    requires number < U32 && kind < 8 && HoldsAt(data, pos, EncodeVarint(8 * number + kind))
    ensures VarintAt(data, pos) == VarintRead(Some(8 * number + kind), pos + |EncodeVarint(8 * number + kind)|)
    ensures (8 * number + kind) % 8 == kind && (8 * number + kind) / 8 % U32 == number
  {
    VarintRoundTrip(data, pos, 8 * number + kind);
  }

  /** The kinds 3, 4, 6 and 7 are not supported: the reader ends behind the tag. */
  lemma OtherKindsEnd(data: bytes, pos: nat, number: nat, kind: nat)
    requires number < U32 && kind in {3, 4, 6, 7} && HoldsAt(data, pos, EncodeVarint(8 * number + kind))
    ensures FieldAt(data, pos) == End(pos + |EncodeVarint(8 * number + kind)|)
  {
    TagIsRead(data, pos, number, kind);
  }

  /** A length-delimited field with any length: read if the data holds that many bytes more; otherwise the reader ends,
      or overflows when position and length together reach 2^64. */
  lemma LengthOutcome(data: bytes, pos: nat, number: nat, len: nat)
    requires number < U32 && len < U64 && |data| < U64
    requires HoldsAt(data, pos, EncodeVarint(8 * number + 2) + EncodeVarint(len))
    ensures var p := pos + |EncodeVarint(8 * number + 2)| + |EncodeVarint(len)|;
            FieldAt(data, pos) ==
            if p + len <= |data| then Got(Field(number, Bytes(data[p..p + len])), p + len)
            else if p + len >= 0x1_0000_0000_0000_0000 then Overflow else End(p)
  {
    HoldsSplit(data, pos, EncodeVarint(8 * number + 2), EncodeVarint(len));
    TagIsRead(data, pos, number, 2);
    VarintRoundTrip(data, pos + |EncodeVarint(8 * number + 2)|, len);
  }

  /** A fixed field whose bytes are not all there ends the reader. */
  lemma TruncatedFixedEnds(data: bytes, pos: nat, number: nat, kind: nat)
    requires number < U32 && kind in {1, 5} && HoldsAt(data, pos, EncodeVarint(8 * number + kind))
    ensures var p := pos + |EncodeVarint(8 * number + kind)|;
            p + (if kind == 1 then 8 else 4) > |data| ==> FieldAt(data, pos) == End(p)
  {
    TagIsRead(data, pos, number, kind);
  }

  lemma ReadAllGot(data: bytes, pos: nat, f: Field, next: nat)
    requires pos <= |data| && FieldAt(data, pos) == Got(f, next)
    ensures pos < next <= |data|
    ensures ReadAll(data, pos) == Reading([f] + ReadAll(data, next).fields, ReadAll(data, next).overflowed)
  {
    FieldAdvances(data, pos);
  }

  lemma ReadAllAtEnd(data: bytes)
    ensures ReadAll(data, |data|) == Reading([], false)
  {
    assert VarintAt(data, |data|) == VarintRead(None, |data|);
    assert FieldAt(data, |data|) == End(|data|);
  }

  lemma {:induction false} RoundTripAt(data: bytes, pos: nat, fields: seq<Field>)
    requires forall f | f in fields :: WellFormed(f)
    requires |data| < U64 && HoldsAt(data, pos, Serialize(fields)) && pos + |Serialize(fields)| == |data|
    ensures ReadAll(data, pos) == Reading(fields, false)
    decreases |fields|
  {
    if fields == [] {
      ReadAllAtEnd(data);
    } else {
      var f, next := fields[0], pos + |SerializeField(fields[0])|;
      HoldsSplit(data, pos, SerializeField(f), Serialize(fields[1..]));
      FieldRoundTrip(data, pos, f);
      ReadAllGot(data, pos, f, next);
      RoundTripAt(data, next, fields[1..]);
      assert fields == [f] + fields[1..];
    }
  }

  /** Reading the serialisation of any list of fields yields exactly that list, then nothing. */
  lemma WireRoundTrip(fields: seq<Field>)
    requires (forall f | f in fields :: WellFormed(f)) && |Serialize(fields)| < U64
    ensures ReadAll(Serialize(fields), 0) == Reading(fields, false)
  {
    RoundTripAt(Serialize(fields), 0, fields);
  }
}
