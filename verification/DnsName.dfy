/** Domain names on the wire (`parse_name`, `encode_name`), against sections 3.1 and 4.1.4 of RFC 1035. */
module DnsName {
  import opened Prelude

  const DOT: byte := 46
  const STEP_LIMIT := 50

  /** Decoding of a label to lower-cased text is a library routine that may refuse. Every routine
      is allowed that lower-cases ASCII. */
  type LabelText = bytes -> Option<bytes>

  function LowerByte(b: byte): byte {
    if 65 <= b <= 90 then b + 32 else b
  }

  function Lower(s: bytes): (r: bytes)
    ensures |r| == |s|
    ensures forall i | 0 <= i < |s| :: !(65 <= r[i] <= 90) && (r[i] == s[i] || (65 <= s[i] <= 90 && r[i] == s[i] + 32))
  {
    seq(|s|, i requires 0 <= i < |s| => LowerByte(s[i]))
  }

  predicate IsAscii(s: bytes) {
    forall i | 0 <= i < |s| :: s[i] < 128
  }

  ghost predicate LowersAscii(text: LabelText) {
    forall s: bytes | IsAscii(s) :: text(s) == Some(Lower(s))
  }

  function LowerAll(labels: seq<bytes>): (r: seq<bytes>)
    ensures |r| == |labels|
  {
    seq(|labels|, i requires 0 <= i < |labels| => Lower(labels[i]))
  }

  /** `labels.join(".")` */
  function Join(labels: seq<bytes>): bytes {
    if labels == [] then []
    else if |labels| == 1 then labels[0]
    else labels[0] + [DOT] + Join(labels[1..])
  }

  // ---------------------------------------------------------------------
  // parse_name
  // ---------------------------------------------------------------------

  /** The name, and the caller's offset afterwards (which a failing call may have moved). */
  datatype NameRead = NameRead(name: Option<bytes>, offset: nat)

  function Target(buf: bytes, cur: nat): nat
    requires cur + 1 < |buf|
  {
    (buf[cur] as int % 64) * 256 + buf[cur + 1]
  }

  /** What stands at a position of a message: the root, a pointer, a label, or nothing readable. */
  datatype Piece = Root | Jump(target: nat) | Label(text: bytes, next: nat) | Unreadable

  function PieceAt(buf: bytes, text: LabelText, cur: nat): Piece {
    if cur >= |buf| then Unreadable
    else if buf[cur] == 0 then Root
    else if buf[cur] >= 192 then (if cur + 1 >= |buf| then Unreadable else Jump(Target(buf, cur)))
    else
      var next := cur + 1 + buf[cur];
      if next > |buf| then Unreadable
      else match text(buf[cur + 1..next])
        case None => Unreadable
        case Some(l) => Label(l, next)
  }

  /** The loop of `parse_name`, one unfolding a step. */
  function ParseFrom(buf: bytes, text: LabelText, cur: nat, jumped: bool, steps: nat, labels: seq<bytes>,
                     offset: nat): NameRead
    decreases STEP_LIMIT + 1 - steps, cur
  {
    if steps > STEP_LIMIT then NameRead(None, offset)
    else match PieceAt(buf, text, cur)
      case Root => NameRead(Some(Join(labels)), if jumped then offset else cur + 1)
      case Jump(q) => ParseFrom(buf, text, q, true, steps + 1, labels, if jumped then offset else cur + 2)
      case Label(l, next) => ParseFrom(buf, text, next, jumped, steps + 1, labels + [l], offset)
      case Unreadable => NameRead(None, offset)
  }

  function NameAt(buf: bytes, text: LabelText, offset: nat): NameRead {
    ParseFrom(buf, text, offset, false, 0, [], offset)
  }

  method ParseName(buf: bytes, text: LabelText, offset: nat) returns (name: Option<bytes>, newOffset: nat)
    ensures NameRead(name, newOffset) == NameAt(buf, text, offset)
  {
    var labels: seq<bytes> := [];
    var cur: nat, jumped, steps: nat := offset, false, 0;
    newOffset := offset;
    while true
      invariant steps <= STEP_LIMIT + 1
      invariant ParseFrom(buf, text, cur, jumped, steps, labels, newOffset) == NameAt(buf, text, offset)
      decreases STEP_LIMIT + 1 - steps
    {
      ghost var piece := PieceAt(buf, text, cur);
      if cur >= |buf| || steps > STEP_LIMIT {
        assert steps > STEP_LIMIT || piece == Unreadable;
        return None, newOffset;
      }
      steps := steps + 1;
      var len := buf[cur];
      if len == 0 {
        assert piece == Root;
        if !jumped { newOffset := cur + 1; }
        return Some(Join(labels)), newOffset;
      }
      if len >= 192 {
        if cur + 1 >= |buf| {
          assert piece == Unreadable;
          return None, newOffset;
        }
        var ptr := Target(buf, cur);
        assert piece == Jump(ptr);
        if !jumped { newOffset := cur + 2; }
        cur := ptr;
        jumped := true;
      } else {
        cur := cur + 1;
        if cur + len > |buf| {
          assert piece == Unreadable;
          return None, newOffset;
        }
        var part := text(buf[cur..cur + len]);
        if part.None? {
          assert piece == Unreadable;
          return None, newOffset;
        }
        assert piece == Label(part.value, cur + len);
        labels := labels + [part.value];
        cur := cur + len;
      }
    }
  }

  // ---------------------------------------------------------------------
  // The loop refines a plain reading of names
  // ---------------------------------------------------------------------

  function Pieces(buf: bytes, text: LabelText): nat -> Piece {
    (cur: nat) => PieceAt(buf, text, cur)
  }

  /** Labels reached from `cur` by following labels and pointers, in at most `budget` steps. */
  function LabelsFrom(pieces: nat -> Piece, cur: nat, budget: nat): Option<seq<bytes>>
    decreases budget
  {
    if budget == 0 then None
    else match pieces(cur)
      case Root => Some([])
      case Jump(q) => LabelsFrom(pieces, q, budget - 1)
      case Label(l, next) => Prepend([l], LabelsFrom(pieces, next, budget - 1))
      case Unreadable => None
  }

  function LabelsAt(buf: bytes, text: LabelText, cur: nat, budget: nat): Option<seq<bytes>> {
    LabelsFrom(Pieces(buf, text), cur, budget)
  }

  function Prepend(labels: seq<bytes>, rest: Option<seq<bytes>>): Option<seq<bytes>> {
    match rest case None => None case Some(r) => Some(labels + r)
  }

  /** Just past the first terminator, or past the first pointer, whichever comes first. */
  function EndOfName(buf: bytes, cur: nat): Option<nat>
    decreases |buf| - cur
  {
    if cur >= |buf| then None
    else if buf[cur] == 0 then Some(cur + 1)
    else if buf[cur] >= 192 then (if cur + 1 >= |buf| then None else Some(cur + 2))
    else EndOfName(buf, cur + 1 + buf[cur])
  }

  lemma PrependAssociates(labels: seq<bytes>, l: bytes, rest: Option<seq<bytes>>)
    ensures rest.Some? ==> Prepend([l], rest) == Some([l] + rest.value)
                           && labels + [l] + rest.value == labels + ([l] + rest.value)
  {
  }

  lemma {:induction false} LoopRefinesLabels(buf: bytes, text: LabelText, cur: nat, jumped: bool, steps: nat,
                                             labels: seq<bytes>, offset: nat)
    requires steps <= STEP_LIMIT + 1
    ensures var r := ParseFrom(buf, text, cur, jumped, steps, labels, offset);
            match LabelsAt(buf, text, cur, STEP_LIMIT + 1 - steps)
            case None => r.name == None
            case Some(rest) =>
              && r.name == Some(Join(labels + rest))
              && (if jumped then r.offset == offset else Some(r.offset) == EndOfName(buf, cur))
    decreases STEP_LIMIT + 1 - steps
  {
    if steps <= STEP_LIMIT {
      match PieceAt(buf, text, cur)
      case Root => assert labels + [] == labels;
      case Jump(q) => LoopRefinesLabels(buf, text, q, true, steps + 1, labels, if jumped then offset else cur + 2);
      case Label(l, next) =>
        LoopRefinesLabels(buf, text, next, jumped, steps + 1, labels + [l], offset);
        PrependAssociates(labels, l, LabelsAt(buf, text, next, STEP_LIMIT - steps));
      case Unreadable =>
    }
  }

  lemma {:induction false} EndOfNameIsForward(buf: bytes, cur: nat)
    ensures EndOfName(buf, cur).Some? ==> cur < EndOfName(buf, cur).value <= |buf|
    decreases |buf| - cur
  {
    if cur < |buf| && 0 < buf[cur] < 192 { EndOfNameIsForward(buf, cur + 1 + buf[cur]); }
  }

  /** On every buffer, pointer cycles included, `parse_name` succeeds exactly when the labels are
      reached within the step budget, and then moves the offset strictly forward, past the first
      terminator or pointer, however far the later jumps go. */
  lemma ParseNameMeaning(buf: bytes, text: LabelText, offset: nat)
    ensures var r := NameAt(buf, text, offset);
            match LabelsAt(buf, text, offset, STEP_LIMIT + 1)
            case None => r.name == None
            case Some(labels) =>
              && r.name == Some(Join(labels))
              && Some(r.offset) == EndOfName(buf, offset)
              && offset < r.offset <= |buf|
  {
    LoopRefinesLabels(buf, text, offset, false, 0, [], offset);
    EndOfNameIsForward(buf, offset);
    match LabelsAt(buf, text, offset, STEP_LIMIT + 1)
    case None =>
    case Some(labels) => assert [] + labels == labels;
  }

  /** The position reading goes on at, unless the name ends or cannot be read. */
  function StepFrom(pieces: nat -> Piece, cur: nat): Option<nat> {
    match pieces(cur)
    case Jump(q) => Some(q)
    case Label(_, next) => Some(next)
    case _ => None
  }

  function PositionAfter(pieces: nat -> Piece, cur: nat, n: nat): Option<nat>
    decreases n
  {
    if n == 0 then Some(cur)
    else match StepFrom(pieces, cur)
      case None => None
      case Some(next) => PositionAfter(pieces, next, n - 1)
  }

  /** Reading succeeds exactly when it succeeds from n steps further on with n steps less. */
  lemma {:induction false} ReadingAdvances(pieces: nat -> Piece, cur: nat, n: nat, p: nat, budget: nat)
    requires PositionAfter(pieces, cur, n) == Some(p)
    ensures LabelsFrom(pieces, cur, budget).Some? <==> budget >= n && LabelsFrom(pieces, p, budget - n).Some?
    decreases n
  {
    if n > 0 && budget > 0 {
      ReadingAdvances(pieces, StepFrom(pieces, cur).value, n - 1, p, budget - 1);
    }
  }

  lemma {:induction false} CycleIsRefused(pieces: nat -> Piece, p: nat, n: nat, budget: nat)
    requires n > 0 && PositionAfter(pieces, p, n) == Some(p)
    ensures LabelsFrom(pieces, p, budget) == None
    decreases budget
  {
    ReadingAdvances(pieces, p, n, p, budget);
    if budget >= n { CycleIsRefused(pieces, p, n, budget - n); }
  }

  lemma {:induction false} PositionsCompose(pieces: nat -> Piece, cur: nat, i: nat, n: nat, p: nat)
    requires PositionAfter(pieces, cur, i) == Some(p)
    ensures PositionAfter(pieces, cur, i + n) == PositionAfter(pieces, p, n)
    decreases i
  {
    if i > 0 { PositionsCompose(pieces, StepFrom(pieces, cur).value, i - 1, n, p); }
  }

  /** A name whose reading comes back to a position it has been at is refused, whatever the cycle. */
  lemma RevisitIsRefused(buf: bytes, text: LabelText, offset: nat, i: nat, j: nat)
    requires i < j && PositionAfter(Pieces(buf, text), offset, i).Some?
    requires PositionAfter(Pieces(buf, text), offset, i) == PositionAfter(Pieces(buf, text), offset, j)
    ensures NameAt(buf, text, offset).name == None
    ensures forall budget: nat :: LabelsAt(buf, text, offset, budget) == None
  {
    var pieces := Pieces(buf, text);
    var p := PositionAfter(pieces, offset, i).value;
    PositionsCompose(pieces, offset, i, j - i, p);
    forall budget: nat ensures LabelsFrom(pieces, offset, budget) == None {
      ReadingAdvances(pieces, offset, i, p, budget);
      if budget >= i { CycleIsRefused(pieces, p, j - i, budget - i); }
    }
    ParseNameMeaning(buf, text, offset);
  }

  // ---------------------------------------------------------------------
  // encode_name
  // ---------------------------------------------------------------------

  /** `name.split('.')` */
  function SplitDots(name: bytes): (r: seq<bytes>)
    ensures r != []
  {
    if name == [] then [[]]
    else
      var rest := SplitDots(name[1..]);
      if name[0] == DOT then [[]] + rest else [[name[0]] + rest[0]] + rest[1..]
  }

  /** The wire form of the parts: empty parts are skipped, lengths are cut to a byte. */
  function EncodeParts(parts: seq<bytes>): bytes {
    if parts == [] then []
    else (if parts[0] == [] then [] else [|parts[0]| % 256] + parts[0]) + EncodeParts(parts[1..])
  }

  function Encoded(name: bytes): bytes {
    EncodeParts(SplitDots(name)) + [0]
  }

  method EncodeName(name: bytes) returns (out: bytes)
    ensures out == Encoded(name)
  {
    var parts := SplitDots(name);
    out := [];
    for i := 0 to |parts|
      invariant out + EncodeParts(parts[i..]) == EncodeParts(parts)
    {
      var part := parts[i];
      assert parts[i..][1..] == parts[i + 1..];
      if part != [] {
        assert out + EncodeParts(parts[i..]) == (out + [|part| % 256] + part) + EncodeParts(parts[i + 1..]);
        out := out + [|part| % 256];
        out := out + part;
      }
    }
    out := out + [0];
  }

  /** Length-prefixed labels, section 3.1 of RFC 1035, without the root terminator. */
  function WireLabels(labels: seq<bytes>): bytes {
    if labels == [] then [] else [|labels[0]| % 256] + labels[0] + WireLabels(labels[1..])
  }

  predicate DotFree(l: bytes) {
    forall i | 0 <= i < |l| :: l[i] != 46
  }

  /** Labels that the length byte can tell from a pointer; RFC 1035 allows at most 63 bytes. */
  predicate PlainLabels(labels: seq<bytes>) {
    forall l | l in labels :: 1 <= |l| < 192 && IsAscii(l)
  }

  /** Labels that survive being joined by dots. */
  predicate NameLabels(labels: seq<bytes>) {
    PlainLabels(labels) && forall l | l in labels :: DotFree(l)
  }

  lemma {:induction false} SplitLabel(l: bytes)
    requires DotFree(l)
    ensures SplitDots(l) == [l]
  {
    if l != [] {
      SplitLabel(l[1..]);
      assert l == [l[0]] + l[1..];
    }
  }

  lemma {:induction false} SplitAtDot(l: bytes, rest: bytes)
    requires DotFree(l)
    ensures SplitDots(l + [DOT] + rest) == [l] + SplitDots(rest)
  {
    var whole := l + [DOT] + rest;
    if l == [] {
      assert whole[1..] == rest;
    } else {
      assert whole[1..] == l[1..] + [DOT] + rest;
      SplitAtDot(l[1..], rest);
      assert l == [l[0]] + l[1..];
    }
  }

  lemma {:induction false} SplitUndoesJoin(labels: seq<bytes>)
    requires labels != [] && forall l | l in labels :: DotFree(l)
    ensures SplitDots(Join(labels)) == labels
  {
    if |labels| == 1 {
      SplitLabel(labels[0]);
    } else {
      SplitAtDot(labels[0], Join(labels[1..]));
      SplitUndoesJoin(labels[1..]);
    }
  }

  lemma {:induction false} EncodePartsOfLabels(labels: seq<bytes>)
    requires forall l | l in labels :: 1 <= |l| < 256
    ensures EncodeParts(labels) == WireLabels(labels)
  {
    if labels != [] { EncodePartsOfLabels(labels[1..]); }
  }

  /** `encode_name` writes a dotted name as its labels, then the terminator. */
  lemma EncodedIsWireForm(labels: seq<bytes>)
    requires forall l | l in labels :: DotFree(l) && 1 <= |l| < 256
    ensures Encoded(Join(labels)) == WireLabels(labels) + [0]
  {
    if labels == [] {
      assert EncodeParts([[]]) == [];
    } else {
      SplitUndoesJoin(labels);
      EncodePartsOfLabels(labels);
    }
  }

  // ---------------------------------------------------------------------
  // Round trips
  // ---------------------------------------------------------------------

  lemma PrependTwice(a: seq<bytes>, b: seq<bytes>, rest: Option<seq<bytes>>)
    ensures Prepend(a, Prepend(b, rest)) == Prepend(a + b, rest)
  {
    match rest
    case None =>
    case Some(r) => assert a + (b + r) == a + b + r;
  }

  /** The pieces from `cur` to `end` are exactly these labels. */
  ghost predicate Run(pieces: nat -> Piece, cur: nat, labels: seq<bytes>, end: nat)
    decreases |labels|
  {
    if labels == [] then cur == end
    else pieces(cur).Label? && pieces(cur).text == labels[0] && Run(pieces, pieces(cur).next, labels[1..], end)
  }

  /** Reading across a run of labels costs one step each. */
  lemma {:induction false} ReadAcrossRun(pieces: nat -> Piece, cur: nat, labels: seq<bytes>, end: nat, budget: nat)
    requires Run(pieces, cur, labels, end)
    ensures LabelsFrom(pieces, cur, budget) ==
            if budget < |labels| then None else Prepend(labels, LabelsFrom(pieces, end, budget - |labels|))
    decreases |labels|
  {
    if labels == [] {
      match LabelsFrom(pieces, cur, budget)
      case None =>
      case Some(r) => assert [] + r == r;
    } else if budget > 0 {
      ReadAcrossRun(pieces, pieces(cur).next, labels[1..], end, budget - 1);
      if budget >= |labels| {
        PrependTwice([labels[0]], labels[1..], LabelsFrom(pieces, end, budget - |labels|));
        assert [labels[0]] + labels[1..] == labels;
      }
    }
  }

  lemma LowerAllCons(labels: seq<bytes>)
    requires labels != []
    ensures LowerAll(labels)[0] == Lower(labels[0]) && LowerAll(labels)[1..] == LowerAll(labels[1..])
  {
  }

  /** Every label is short enough for its length byte and has a lower case. */
  ghost predicate Readable(text: LabelText, labels: seq<bytes>) {
    labels == [] ||
    (1 <= |labels[0]| < 192 && text(labels[0]) == Some(Lower(labels[0])) && Readable(text, labels[1..]))
  }

  lemma {:induction false} PlainLabelsAreReadable(text: LabelText, labels: seq<bytes>)
    requires PlainLabels(labels) && LowersAscii(text)
    ensures Readable(text, labels)
  {
    if labels != [] {
      assert labels[0] in labels;
      PlainLabelsAreReadable(text, labels[1..]);
    }
  }

  /** The first label's bytes, then those of the others. */
  lemma FirstLabel(buf: bytes, cur: nat, l: bytes, rest: bytes)
    requires 1 <= |l| < 192 && HoldsAt(buf, cur, [|l|] + l + rest)
    ensures cur + 1 + |l| <= |buf| && buf[cur] == |l| && buf[cur + 1..cur + 1 + |l|] == l
    ensures HoldsAt(buf, cur + 1 + |l|, rest)
  {
    HoldsSplit(buf, cur, [|l|] + l, rest);
    HoldsSplit(buf, cur, [|l|], l);
    assert buf[cur] == buf[cur..cur + 1][0];
  }

  lemma FirstPiece(buf: bytes, text: LabelText, cur: nat, l: bytes, rest: bytes)
    requires 1 <= |l| < 192 && text(l) == Some(Lower(l)) && HoldsAt(buf, cur, [|l|] + l + rest)
    ensures Pieces(buf, text)(cur) == Label(Lower(l), cur + 1 + |l|)
    ensures EndOfName(buf, cur) == EndOfName(buf, cur + 1 + |l|)
    ensures HoldsAt(buf, cur + 1 + |l|, rest)
  {
    FirstLabel(buf, cur, l, rest);
  }

  lemma RunCons(pieces: nat -> Piece, cur: nat, first: bytes, next: nat, rest: seq<bytes>, end: nat)
    requires pieces(cur) == Label(first, next) && Run(pieces, next, rest, end)
    ensures Run(pieces, cur, [first] + rest, end)
  {
    assert ([first] + rest)[1..] == rest;
  }

  /** Plain labels on the wire are a run of their lower case, and the name does not end inside it. */
  lemma {:induction false} WireLabelsAreARun(buf: bytes, text: LabelText, cur: nat, labels: seq<bytes>)
    requires Readable(text, labels) && HoldsAt(buf, cur, WireLabels(labels))
    ensures Run(Pieces(buf, text), cur, LowerAll(labels), cur + |WireLabels(labels)|)
    ensures EndOfName(buf, cur) == EndOfName(buf, cur + |WireLabels(labels)|)
    decreases |labels|
  {
    if labels != [] {
      var next, end := cur + 1 + |labels[0]|, cur + |WireLabels(labels)|;
      FirstPiece(buf, text, cur, labels[0], WireLabels(labels[1..]));
      WireLabelsAreARun(buf, text, next, labels[1..]);
      assert next + |WireLabels(labels[1..])| == end;
      LowerAllCons(labels);
      RunCons(Pieces(buf, text), cur, Lower(labels[0]), next, LowerAll(labels[1..]), end);
    }
  }

  lemma TerminatorAt(buf: bytes, text: LabelText, cur: nat)
    requires HoldsAt(buf, cur, [0])
    ensures Pieces(buf, text)(cur) == Root && EndOfName(buf, cur) == Some(cur + 1)
  {
    assert buf[cur] == buf[cur..cur + 1][0];
  }

  lemma RunToRoot(buf: bytes, text: LabelText, cur: nat, labels: seq<bytes>)
    requires Readable(text, labels) && HoldsAt(buf, cur, WireLabels(labels) + [0])
    ensures Run(Pieces(buf, text), cur, LowerAll(labels), cur + |WireLabels(labels)|)
    ensures Pieces(buf, text)(cur + |WireLabels(labels)|) == Root
    ensures EndOfName(buf, cur) == Some(cur + |WireLabels(labels)| + 1)
  {
    HoldsSplit(buf, cur, WireLabels(labels), [0]);
    WireLabelsAreARun(buf, text, cur, labels);
    TerminatorAt(buf, text, cur + |WireLabels(labels)|);
  }

  lemma RunThenRoot(pieces: nat -> Piece, cur: nat, labels: seq<bytes>, end: nat, budget: nat)
    requires Run(pieces, cur, labels, end) && pieces(end) == Root
    ensures LabelsFrom(pieces, cur, budget) == if budget < |labels| + 1 then None else Some(labels)
  {
    ReadAcrossRun(pieces, cur, labels, end, budget);
    assert labels + [] == labels;
  }

  lemma PlainNameIsRead(buf: bytes, text: LabelText, cur: nat, labels: seq<bytes>, budget: nat)
    requires Readable(text, labels) && HoldsAt(buf, cur, WireLabels(labels) + [0])
    ensures LabelsAt(buf, text, cur, budget) == if budget < |labels| + 1 then None else Some(LowerAll(labels))
    ensures EndOfName(buf, cur) == Some(cur + |WireLabels(labels)| + 1)
  {
    RunToRoot(buf, text, cur, labels);
    RunThenRoot(Pieces(buf, text), cur, LowerAll(labels), cur + |WireLabels(labels)|, budget);
  }

  /** Parsing an encoded name, embedded anywhere in any buffer, gives the lower-cased name and the
      offset just past it, if and only if it has at most 50 labels. */
  lemma NameRoundTrip(buf: bytes, text: LabelText, pos: nat, labels: seq<bytes>)
    requires NameLabels(labels) && LowersAscii(text)
    requires HoldsAt(buf, pos, Encoded(Join(labels)))
    ensures |labels| <= 50 ==>
              NameAt(buf, text, pos) == NameRead(Some(Join(LowerAll(labels))), pos + |Encoded(Join(labels))|)
    ensures |labels| > 50 ==> NameAt(buf, text, pos).name == None
  {
    EncodedIsWireForm(labels);
    PlainLabelsAreReadable(text, labels);
    PlainNameIsRead(buf, text, pos, labels, STEP_LIMIT + 1);
    ParseNameMeaning(buf, text, pos);
  }

  function Pointer(q: nat): bytes
    requires q < 16384
  {
    [192 + q / 256, q % 256]
  }

  lemma PointerAt(buf: bytes, text: LabelText, cur: nat, q: nat)
    requires q < 16384 && HoldsAt(buf, cur, Pointer(q))
    ensures Pieces(buf, text)(cur) == Jump(q) && EndOfName(buf, cur) == Some(cur + 2)
  {
    assert buf[cur] == buf[cur..cur + 2][0] && buf[cur + 1] == buf[cur..cur + 2][1];
    assert Target(buf, cur) == q;
  }

  lemma RunToPointer(buf: bytes, text: LabelText, cur: nat, labels: seq<bytes>, q: nat)
    requires Readable(text, labels) && q < 16384 && HoldsAt(buf, cur, WireLabels(labels) + Pointer(q))
    ensures Run(Pieces(buf, text), cur, LowerAll(labels), cur + |WireLabels(labels)|)
    ensures Pieces(buf, text)(cur + |WireLabels(labels)|) == Jump(q)
    ensures EndOfName(buf, cur) == Some(cur + |WireLabels(labels)| + 2)
  {
    HoldsSplit(buf, cur, WireLabels(labels), Pointer(q));
    WireLabelsAreARun(buf, text, cur, labels);
    PointerAt(buf, text, cur + |WireLabels(labels)|, q);
  }

  lemma PointerNameIsRead(buf: bytes, text: LabelText, cur: nat, labels: seq<bytes>, q: nat, budget: nat)
    requires Readable(text, labels) && q < 16384 && HoldsAt(buf, cur, WireLabels(labels) + Pointer(q))
    ensures LabelsAt(buf, text, cur, budget) ==
            if budget <= |labels| then None
                else Prepend(LowerAll(labels), LabelsAt(buf, text, q, budget - |labels| - 1))
    ensures EndOfName(buf, cur) == Some(cur + |WireLabels(labels)| + 2)
  {
    RunToPointer(buf, text, cur, labels, q);
    RunThenJump(Pieces(buf, text), cur, LowerAll(labels), cur + |WireLabels(labels)|, q, budget);
  }

  lemma RunThenJump(pieces: nat -> Piece, cur: nat, labels: seq<bytes>, at: nat, q: nat, budget: nat)
    requires Run(pieces, cur, labels, at) && pieces(at) == Jump(q)
    ensures LabelsFrom(pieces, cur, budget) ==
            if budget <= |labels| then None else Prepend(labels, LabelsFrom(pieces, q, budget - |labels| - 1))
  {
    ReadAcrossRun(pieces, cur, labels, at, budget);
  }

  /** A name in segments: each ends in a pointer to where the next one stands, the last in the root. */
  ghost predicate Chain(buf: bytes, pos: nat, segments: seq<seq<bytes>>, targets: seq<nat>)
    decreases |targets|
  {
    |segments| == |targets| + 1 &&
    if targets == [] then HoldsAt(buf, pos, WireLabels(segments[0]) + [0])
    else targets[0] < 16384 && HoldsAt(buf, pos, WireLabels(segments[0]) + Pointer(targets[0]))
         && Chain(buf, targets[0], segments[1..], targets[1..])
  }

  function Flatten(segments: seq<seq<bytes>>): seq<bytes> {
    if segments == [] then [] else segments[0] + Flatten(segments[1..])
  }

  lemma LowerAllConcat(a: seq<bytes>, b: seq<bytes>)
    ensures LowerAll(a + b) == LowerAll(a) + LowerAll(b)
  {
  }

  lemma {:induction false} ChainIsRead(buf: bytes, text: LabelText, pos: nat, segments: seq<seq<bytes>>,
                                       targets: seq<nat>, budget: nat)
    requires Chain(buf, pos, segments, targets) && forall s | s in segments :: Readable(text, s)
    ensures LabelsAt(buf, text, pos, budget) ==
            if budget < |Flatten(segments)| + |targets| + 1 then None else Some(LowerAll(Flatten(segments)))
    decreases |targets|
  {
    var first := segments[0];
    if targets == [] {
      assert segments[1..] == [] && Flatten(segments) == first + [] == first;
      PlainNameIsRead(buf, text, pos, first, budget);
    } else {
      var rest := Flatten(segments[1..]);
      PointerNameIsRead(buf, text, pos, first, targets[0], budget);
      var left := if budget <= |first| then 0 else budget - |first| - 1;
      ChainIsRead(buf, text, targets[0], segments[1..], targets[1..], left);
      LowerAllConcat(first, rest);
      Combine(LabelsAt(buf, text, pos, budget), LabelsAt(buf, text, targets[0], left), LowerAll(first),
              LowerAll(rest), budget, left, |rest| + |targets|);
    }
  }

  lemma Combine(whole: Option<seq<bytes>>, tail: Option<seq<bytes>>, first: seq<bytes>, rest: seq<bytes>,
                budget: nat, left: nat, cost: nat)
    requires cost > 0 && left == if budget <= |first| then 0 else budget - |first| - 1
    requires whole == if budget <= |first| then None else Prepend(first, tail)
    requires tail == if left < cost then None else Some(rest)
    ensures whole == if budget < |first| + cost + 1 then None else Some(first + rest)
  {
  }

  /** Section 4.1.4 of RFC 1035: a name compressed by any chain of pointers reads as the whole name, with the offset
      two bytes past the first pointer, if and only if labels, pointers and terminator stay within the step budget. */
  lemma CompressedNameRoundTrip(buf: bytes, text: LabelText, pos: nat, segments: seq<seq<bytes>>, targets: seq<nat>)
    requires Chain(buf, pos, segments, targets) && targets != []
    requires LowersAscii(text) && forall s | s in segments :: PlainLabels(s)
    ensures var r := NameAt(buf, text, pos);
            if |Flatten(segments)| + |targets| <= 50
            then r == NameRead(Some(Join(LowerAll(Flatten(segments)))), pos + |WireLabels(segments[0])| + 2)
            else r.name == None
  {
    forall s | s in segments ensures Readable(text, s) { PlainLabelsAreReadable(text, s); }
    ChainIsRead(buf, text, pos, segments, targets, STEP_LIMIT + 1);
    assert segments[0] in segments;
    PointerNameIsRead(buf, text, pos, segments[0], targets[0], 0);
    ParseNameMeaning(buf, text, pos);
  }
}
