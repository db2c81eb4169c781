/** Types and arithmetic shared by the models. */
module Prelude {

  datatype Option<+T> = None | Some(value: T)

  /** IPv4 addresses as numbers. */
  const SPACE: nat := 0x1_0000_0000

  type Address = a: int | 0 <= a < SPACE

  type byte = b: int | 0 <= b < 256

  type bytes = seq<byte>

  function Pow2(n: nat): (r: nat)
    ensures r > 0
  {
    if n == 0 then 1 else 2 * Pow2(n - 1)
  }

  lemma {:induction false} Pow2Add(a: nat, b: nat)
    ensures Pow2(a + b) == Pow2(a) * Pow2(b)
    decreases a
  {
    if a > 0 {
      Pow2Add(a - 1, b);
      assert Pow2(a + b) == 2 * Pow2(a - 1 + b);
    }
  }

  lemma {:induction false} Pow2Monotone(a: nat, b: nat)
    requires a <= b
    ensures Pow2(a) <= Pow2(b)
    decreases b
  {
    if a < b { Pow2Monotone(a, b - 1); }
  }

  lemma Pow2Values()
    ensures Pow2(7) == 128 && Pow2(8) == 256 && Pow2(16) == 0x1_0000
    ensures Pow2(32) == 0x1_0000_0000 && Pow2(63) == 0x8000_0000_0000_0000
    ensures Pow2(64) == 0x1_0000_0000_0000_0000
  {
    var n: nat := 8;
    assert Pow2(n) == 256 by { assert Pow2(8) == 256; }
    assert Pow2(n - 1) == 128;
    Pow2Add(n, n);
    Pow2Add(2 * n, 2 * n);
    Pow2Add(4 * n, 4 * n);
    assert Pow2(8 * n) == 2 * Pow2(8 * n - 1);
  }

  /** `v` shifted left by `n` bits. */
  function Shl(v: nat, n: nat): nat {
    if n == 0 then v else 2 * Shl(v, n - 1)
  }

  lemma {:induction false} ShlAdd(a: nat, b: nat, n: nat)
    ensures Shl(a + b, n) == Shl(a, n) + Shl(b, n)
  {
    if n > 0 { ShlAdd(a, b, n - 1); }
  }

  lemma {:induction false} ShlMonotone(a: nat, b: nat, n: nat)
    requires a <= b
    ensures Shl(a, n) <= Shl(b, n)
  {
    if n > 0 { ShlMonotone(a, b, n - 1); }
  }

  lemma {:induction false} ShlTwice(v: nat, m: nat, n: nat)
    ensures Shl(Shl(v, m), n) == Shl(v, m + n)
    decreases n
  {
    if n > 0 { ShlTwice(v, m, n - 1); }
  }

  lemma {:induction false} ShlIsMultiplication(v: nat, n: nat)
    ensures Shl(v, n) == v * Pow2(n)
  {
    if n > 0 { ShlIsMultiplication(v, n - 1); }
  }

  /** The number written little-endian in `bs`. */
  function FromLittleEndian(bs: bytes): nat {
    if bs == [] then 0 else bs[0] + 256 * FromLittleEndian(bs[1..])
  }

  function ToLittleEndian(n: nat, width: nat): (r: bytes)
    ensures |r| == width
  {
    if width == 0 then [] else [n % 256] + ToLittleEndian(n / 256, width - 1)
  }

  lemma {:induction false} LittleEndianRoundTrip(n: nat, width: nat)
    requires n < Pow2(8 * width)
    ensures FromLittleEndian(ToLittleEndian(n, width)) == n
    decreases width
  {
    if width > 0 {
      Pow2Add(8, 8 * (width - 1));
      assert Pow2(8) == 256;
      LittleEndianRoundTrip(n / 256, width - 1);
      assert ToLittleEndian(n, width)[1..] == ToLittleEndian(n / 256, width - 1);
    }
  }

  /** The parts one after the other. */
  function Concat(parts: seq<bytes>): bytes {
    if parts == [] then [] else parts[0] + Concat(parts[1..])
  }

  /** `part` stands in `data` at `pos`. */
  ghost predicate HoldsAt(data: bytes, pos: nat, part: bytes) {
    pos + |part| <= |data| && data[pos..pos + |part|] == part
  }

  lemma HoldsSplit(data: bytes, pos: nat, a: bytes, b: bytes)
    requires HoldsAt(data, pos, a + b)
    ensures HoldsAt(data, pos, a) && HoldsAt(data, pos + |a|, b)
  {
    assert data[pos..pos + |a|] == data[pos..pos + |a + b|][..|a|];
    assert data[pos + |a|..pos + |a| + |b|] == data[pos..pos + |a + b|][|a|..];
  }

  lemma HoldsConcat(a: bytes, b: bytes, c: bytes)
    ensures HoldsAt(a + b + c, 0, a) && HoldsAt(a + b + c, |a|, b) && HoldsAt(a + b + c, |a| + |b|, c)
    ensures |a + b + c| == |a| + |b| + |c|
  {
  }
}
