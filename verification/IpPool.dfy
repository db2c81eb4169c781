/** The IPv4 address pool (`Ipv4Cidr`, `IpPool`). Arithmetic on 32-bit words wraps, as in the release build. */
module IpPool {
  import opened Prelude

  // ---------------------------------------------------------------------
  // Bits of an address
  // ---------------------------------------------------------------------

  /** The leading bits, with the last `bits` bits shifted out. */
  function Shr(a: nat, bits: nat): nat {
    if bits == 0 then a else Shr(a / 2, bits - 1)
  }

  /** The last `bits` bits cleared. */
  function Masked(a: nat, bits: nat): nat {
    if bits == 0 then a else 2 * Masked(a / 2, bits - 1)
  }

  /** The last `bits` bits are zero. */
  predicate Aligned(a: nat, bits: nat) {
    bits == 0 || (a % 2 == 0 && Aligned(a / 2, bits - 1))
  }

  lemma {:induction false} MaskedIsAligned(a: nat, bits: nat)
    ensures Aligned(Masked(a, bits), bits) && Shr(Masked(a, bits), bits) == Shr(a, bits) && Masked(a, bits) <= a
  {
    if bits > 0 { MaskedIsAligned(a / 2, bits - 1); }
  }

  lemma {:induction false} SameLeadingBits(network: nat, a: nat, bits: nat)
    requires Aligned(network, bits)
    ensures Shr(a, bits) == Shr(network, bits) <==> network <= a < network + Pow2(bits)
  {
    if bits > 0 { SameLeadingBits(network / 2, a / 2, bits - 1); }
  }

  lemma {:induction false} AlignedBlockFits(network: nat, bits: nat, width: nat)
    requires Aligned(network, bits) && bits <= width && network < Pow2(width)
    ensures network + Pow2(bits) <= Pow2(width)
  {
    if bits > 0 { AlignedBlockFits(network / 2, bits - 1, width - 1); }
  }

  // ---------------------------------------------------------------------
  // Networks
  // ---------------------------------------------------------------------

  /** The shift count `32 - prefix`, which the machine takes modulo 32. */
  function Bits(prefix: nat): nat {
    (32 - prefix) % 32
  }

  /** `1u32 << (32 - prefix)` */
  function Size(prefix: nat): (r: nat)
    ensures 0 < r < SPACE
  {
    SmallPower(Bits(prefix));
    Pow2(Bits(prefix))
  }

  lemma SmallPower(n: nat)
    requires n < 32
    ensures Pow2(n) < SPACE
  {
    Pow2Monotone(n, 31);
    var k: nat := 32;
    assert Pow2(k) == 2 * Pow2(k - 1);
    Pow2Values();
  }

  predicate InBlock(a: Address, start: int, size: int) {
    start <= a < start + size
  }

  ghost function Block(start: int, size: int): set<Address> {
    set a: Address | 0 <= a < SPACE && InBlock(a, start, size)
  }

  /** A network and its prefix length. */
  datatype Cidr = Cidr(network: Address, prefix: nat) {
    predicate Valid() {
      prefix <= 32 && Aligned(network, Bits(prefix))
    }

    predicate Contains(ip: Address) {
      Shr(ip, Bits(prefix)) == Shr(network, Bits(prefix))
    }

    /** Every address of the network. */
    ghost function Range(): set<Address> {
      Block(network, Size(prefix))
    }

    /** What a fresh pool hands out: everything for the two longest prefixes, otherwise all but the
        network, the gateway and the broadcast address. */
    ghost function Usable(): set<Address> {
      if prefix >= 31 then Range() else Block(network + 2, Size(prefix) - 3)
    }
  }

  /** `Ipv4Cidr::parse` once the text has been split and read. */
  function ParseCidr(ip: Address, prefix: nat): Option<Cidr> {
    MaskedIsAligned(ip, Bits(prefix));
    if prefix > 32 then None else Some(Cidr(Masked(ip, Bits(prefix)), prefix))
  }

  lemma ValidCidr(c: Cidr, a: Address)
    requires c.Valid()
    ensures c.network + Size(c.prefix) <= SPACE
    ensures c.Contains(a) <==> a in c.Range()
  {
    SameLeadingBits(c.network, a, Bits(c.prefix));
    var w: nat := 32;
    Pow2Values();
    AlignedBlockFits(c.network, Bits(c.prefix), w);
  }

  /** Parsing fails exactly for prefixes above 32. A network of 1 to 32 bits starts at the address rounded down to a
      multiple of its size, lies wholly in the address space, and contains exactly the addresses of its range, that of
      the text among them; a prefix of 0 gives a network of the address alone. */
  lemma ParsedCidr(ip: Address, prefix: nat, a: Address)
    ensures ParseCidr(ip, prefix).None? <==> prefix > 32
    ensures prefix <= 32 ==>
              var c, size := ParseCidr(ip, prefix).value, Pow2(if prefix == 0 then 0 else 32 - prefix);
              && c.Valid() && c.prefix == prefix && (exists k: nat :: IsMultiple(c.network, k, size))
              && c.network <= ip < c.network + size <= SPACE && (c.Contains(a) <==> c.network <= a < c.network + size)
              && (a in c.Range() <==> c.Contains(a))
  {
    if prefix <= 32 {
      MaskedIsAligned(ip, Bits(prefix));
      AlignedIff(Masked(ip, Bits(prefix)), Bits(prefix));
      ValidCidr(ParseCidr(ip, prefix).value, a);
      ValidCidr(ParseCidr(ip, prefix).value, ip);
    }
  }

  predicate IsMultiple(a: nat, k: nat, p: nat) {
    a == k * p
  }

  lemma {:induction false} AlignedIsShifted(a: nat, bits: nat)
    requires Aligned(a, bits)
    ensures a == Shl(Shr(a, bits), bits)
  {
    if bits > 0 { AlignedIsShifted(a / 2, bits - 1); }
  }

  lemma {:induction false} ShiftedIsAligned(k: nat, bits: nat)
    ensures Aligned(Shl(k, bits), bits)
  {
    if bits > 0 {
      ShiftedIsAligned(k, bits - 1);
      DoubledIsAligned(Shl(k, bits - 1), bits - 1);
    }
  }

  lemma DoubledIsAligned(a: nat, bits: nat)
    requires Aligned(a, bits)
    ensures Aligned(2 * a, bits + 1)
  {
    assert 2 * a % 2 == 0 && 2 * a / 2 == a;
  }

  /** Aligned addresses are the multiples of a power of two. */
  lemma AlignedIff(a: nat, bits: nat)
    ensures Aligned(a, bits) <==> exists k: nat :: IsMultiple(a, k, Pow2(bits))
  {
    if Aligned(a, bits) {
      AlignedIsShifted(a, bits);
      ShlIsMultiplication(Shr(a, bits), bits);
      assert IsMultiple(a, Shr(a, bits), Pow2(bits));
    }
    if k: nat :| IsMultiple(a, k, Pow2(bits)) {
      ShlIsMultiplication(k, bits);
      ShiftedIsAligned(k, bits);
    }
  }

  /** `derive_gateway` */
  function Gateway(c: Cidr): Address {
    (c.network + 1) % SPACE
  }

  lemma SizeIsPower(prefix: nat)
    requires 1 <= prefix <= 32
    ensures Size(prefix) == Pow2(32 - prefix)
  {
  }

  /** The usable addresses of a network: all for the prefixes 31 and 32, all but the first two and the last for 1 to 30,
      and none for the prefix 0. The gateway is the second address. */
  lemma UsableIff(c: Cidr, a: Address)
    requires c.Valid()
    ensures 1 <= c.prefix ==>
              var size := Pow2(32 - c.prefix);
              (a in c.Usable() <==>
               c.network <= a < c.network + size
               && (c.prefix <= 30 ==> a != c.network && a != c.network + 1 && a != c.network + size - 1))
    ensures c.prefix == 0 ==> a !in c.Usable()
    ensures c.network < SPACE - 1 ==> Gateway(c) == c.network + 1
  {
    if c.prefix >= 1 { SizeIsPower(c.prefix); }
  }

  /** With a prefix of 1 to 30 bits no usable address is the network, the gateway or the broadcast
      address, and none is the last address of the whole space. */
  lemma UsableExcludesReserved(c: Cidr)
    requires c.Valid() && 1 <= c.prefix <= 30
    ensures c.network !in c.Usable() && Gateway(c) !in c.Usable()
    ensures c.network + Size(c.prefix) - 1 !in c.Usable() && SPACE - 1 !in c.Usable()
    ensures c.Usable() <= c.Range()
  {
    ValidCidr(c, c.network);
    assert Size(c.prefix) >= 4 by { Pow2Monotone(2, Bits(c.prefix)); assert Pow2(2) == 4; }
  }

  // ---------------------------------------------------------------------
  // The pool
  // ---------------------------------------------------------------------

  ghost predicate IsLeast(a: Address, s: set<Address>) {
    a in s && forall x | x in s :: a <= x
  }

  lemma {:induction false} LeastExists(s: set<Address>)
    requires s != {}
    ensures exists a :: IsLeast(a, s)
    decreases |s|
  {
    var x :| x in s;
    if s == {x} {
      assert IsLeast(x, s);
    } else {
      assert s == (s - {x}) + {x};
      LeastExists(s - {x});
      var y :| IsLeast(y, s - {x});
      if x < y {
        assert IsLeast(x, s);
      } else {
        assert IsLeast(y, s);
      }
    }
  }

  /** A wholly free, aligned block. */
  ghost predicate FreeBlock(free: set<Address>, start: Address, bits: nat) {
    Aligned(start, bits) && start + Pow2(bits) <= SPACE && Block(start, Pow2(bits)) <= free
  }

  ghost predicate LowestFreeBlock(free: set<Address>, start: Address, bits: nat) {
    FreeBlock(free, start, bits) && forall a: Address | FreeBlock(free, a, bits) :: start <= a
  }

  /** The addresses from `start` on, `size` of them, are free, and `start` is a multiple of `size`. */
  ghost predicate FreeFrom(free: set<Address>, start: Address, size: nat) {
    (exists k: nat :: IsMultiple(start, k, size)) && start + size <= SPACE
    && forall a: Address | start <= a < start + size :: a in free
  }

  /** A block of 2^(32 - prefix) addresses that starts at a multiple of its size and is wholly free. */
  ghost predicate IsFreeNetwork(free: set<Address>, start: Address, prefix: nat)
    requires prefix <= 32
  {
    FreeFrom(free, start, Pow2(32 - prefix))
  }

  lemma FreeBlockIff(free: set<Address>, start: Address, bits: nat)
    ensures FreeBlock(free, start, bits) <==> FreeFrom(free, start, Pow2(bits))
  {
    AlignedIff(start, bits);
    BlockIsFreeIff(free, start, Pow2(bits));
  }

  lemma BlockIsFreeIff(free: set<Address>, start: Address, size: nat)
    ensures Block(start, size) <= free <==> forall a: Address | start <= a < start + size :: a in free
  {
    if Block(start, size) <= free {
      forall a: Address | start <= a < start + size ensures a in free {
        assert InBlock(a, start, size) && a in Block(start, size);
      }
    }
  }

  /** What `allocate_subnet` grants for a prefix of 1 to 32 bits: the lowest such block. */
  lemma LowestFreeBlockIff(free: set<Address>, start: Address, prefix: nat)
    requires 1 <= prefix <= 32
    ensures LowestFreeBlock(free, start, Bits(prefix)) <==>
            IsFreeNetwork(free, start, prefix) && forall a: Address | a < start :: !IsFreeNetwork(free, a, prefix)
  {
    forall a: Address ensures FreeBlock(free, a, Bits(prefix)) <==> IsFreeNetwork(free, a, prefix) {
      FreeBlockIff(free, a, Bits(prefix));
    }
  }

  /** Sorted, without repetition: the iteration order of the free set. */
  ghost predicate Listing(v: seq<Address>, s: set<Address>) {
    && (forall i, j | 0 <= i < j < |v| :: v[i] < v[j])
    && (forall a :: a in v <==> a in s)
  }

  lemma {:induction false} ListingLength(v: seq<Address>, s: set<Address>)
    requires Listing(v, s)
    ensures |v| == |s|
    decreases |v|
  {
    if v == [] {
      assert s == {} by { assert forall a :: a in v <==> a in s; }
    } else {
      var last := v[|v| - 1];
      var front := v[..|v| - 1];
      forall a ensures a in front <==> a in s - {last} {
        if a in front { assert a in v; }
        if a in s - {last} { assert a in v; }
      }
      ListingLength(front, s - {last});
    }
  }

  /** A free block stands in the listing as a window of consecutive addresses. */
  lemma {:induction false} BlockIsWindow(free: set<Address>, v: seq<Address>, start: Address, size: nat, u: nat, i: nat)
    requires Listing(v, free) && start + size <= SPACE && Block(start, size) <= free
    requires u < |v| && v[u] == start && i < size
    ensures u + i < |v| && v[u + i] == start + i
    decreases i
  {
    if i > 0 {
      BlockIsWindow(free, v, start, size, u, i - 1);
      var next: Address := start + i;
      assert InBlock(next, start, size) && next in Block(start, size);
      assert next in v;
      var j :| 0 <= j < |v| && v[j] == next;
      assert u + i <= j;
      assert v[u + i - 1] < v[u + i] <= v[j];
    }
  }

  lemma BlockStep(start: nat, i: nat)
    requires start + i < SPACE
    ensures Block(start, i + 1) == Block(start, i) + {start + i}
  {
    var a: Address := start + i;
    assert InBlock(a, start, i + 1);
    forall x | x in Block(start, i + 1) ensures x in Block(start, i) + {a} {
      assert InBlock(x, start, i + 1);
      assert x != a ==> InBlock(x, start, i);
    }
    forall x | x in Block(start, i) ensures x in Block(start, i + 1) {
      assert InBlock(x, start, i);
      assert InBlock(x, start, i + 1);
    }
  }

  lemma BlockEmpty(start: int, i: int)
    requires i <= 0
    ensures Block(start, i) == {}
  {
    assert forall x: Address :: !InBlock(x, start, i);
  }

  /** The window of `v` that starts at `w` counts up by one. */
  ghost predicate Consecutive(v: seq<Address>, w: nat, size: nat) {
    w + size <= |v| && forall k | w <= k < w + size :: v[k] == v[w] + (k - w)
  }

  /** In a window of consecutive addresses every address of the block is free. */
  lemma WindowIsFree(free: set<Address>, v: seq<Address>, w: nat, size: nat)
    requires Listing(v, free) && 0 < size && Consecutive(v, w, size)
    ensures v[w] + size <= SPACE && Block(v[w], size) <= free
  {
    assert v[w + size - 1] == v[w] + (size - 1);
    forall x | x in Block(v[w], size) ensures x in free {
      assert InBlock(x, v[w], size);
      var k := w + (x - v[w]);
      assert v[k] == x && v[k] in v;
    }
  }

  /** Conversely a free block that starts at a listed address is such a window. */
  lemma FreeBlockIsWindow(free: set<Address>, v: seq<Address>, start: Address, bits: nat)
    requires Listing(v, free) && FreeBlock(free, start, bits)
    ensures exists u: nat :: u < |v| && v[u] == start && Consecutive(v, u, Pow2(bits))
  {
    assert InBlock(start, start, Pow2(bits)) && start in Block(start, Pow2(bits));
    assert start in v;
    var u: nat :| u < |v| && v[u] == start;
    BlockIsWindow(free, v, start, Pow2(bits), u, Pow2(bits) - 1);
    forall k | u <= k < u + Pow2(bits) ensures v[k] == v[u] + (k - u) {
      BlockIsWindow(free, v, start, Pow2(bits), u, k - u);
    }
    assert Consecutive(v, u, Pow2(bits));
  }

  lemma LaterWindow(free: set<Address>, v: seq<Address>, w: nat, bits: nat, a: Address)
    requires Listing(v, free) && w <= |v| && FreeBlock(free, a, bits)
    requires forall u: nat | u < w :: !FreeBlock(free, v[u], bits)
    ensures w + Pow2(bits) <= |v| && v[w] <= a
  {
    FreeBlockIsWindow(free, v, a, bits);
    var u: nat :| u < |v| && v[u] == a && Consecutive(v, u, Pow2(bits));
    assert u >= w;
  }

  /** `pop_first` on an ordered set: the least address, and the others. */
  method PopFirst(free: set<Address>) returns (r: Option<Address>, rest: set<Address>)
    ensures r.None? <==> free == {}
    ensures if r.Some? then IsLeast(r.value, free) && rest == free - {r.value} else rest == free
  {
    if free == {} { return None, free; }
    LeastExists(free);
    var ip: Address :| ip in free && forall x | x in free :: ip <= x;
    return Some(ip), free - {ip};
  }

  /** `struct IpPool`: the network it was made for and the set of free addresses. */
  class Pool {
    const cidr: Cidr
    var free: set<Address>

    constructor (c: Cidr)
      requires c.Valid()
      ensures cidr == c && free == c.Usable()
    {
      ValidCidr(c, c.network);
      var total: int := Size(c.prefix);
      var s: set<Address> := {};
      if c.prefix >= 31 {
        BlockEmpty(c.network, 0);
        for i := 0 to total
          invariant s == Block(c.network, i)
        {
          BlockStep(c.network, i);
          s := s + {c.network + i};
        }
      } else {
        BlockEmpty(c.network + 2, 0);
        var i: int := 2;
        while i < total - 1
          invariant 2 <= i && (i <= total - 1 || i == 2)
          invariant s == Block(c.network + 2, i - 2)
        {
          BlockStep(c.network + 2, i - 2);
          s := s + {c.network + i};
          i := i + 1;
        }
        if i > total - 1 { BlockEmpty(c.network + 2, total - 3); }
      }
      cidr := c;
      free := s;
    }

    /** `pop_first`: the least free address. */
    method Allocate() returns (r: Option<Address>)
      modifies this
      ensures r.None? <==> old(free) == {}
      ensures r.Some? ==> IsLeast(r.value, old(free)) && free == old(free) - {r.value}
      ensures r.None? ==> free == old(free)
    {
      r, free := PopFirst(free);
    }

    method Release(ip: Address)
      modifies this
      ensures free == old(free) + {ip}
    {
      free := free + {ip};
    }

    /** Adds a network that starts right after this one. The pool's own network is not changed. */
    method Expand(c: Cidr) returns (ok: bool)
      requires c.Valid()
      modifies this
      ensures ok <==> c.network == (cidr.network + Size(cidr.prefix)) % SPACE
      ensures free == if ok then old(free) + c.Range() else old(free)
    {
      ok := c.network == (cidr.network + Size(cidr.prefix)) % SPACE;
      if !ok { return; }
      ValidCidr(c, c.network);
      BlockEmpty(c.network, 0);
      for i := 0 to Size(c.prefix)
        invariant free == old(free) + Block(c.network, i)
      {
        BlockStep(c.network, i);
        free := free + {c.network + i};
      }
    }

    /** The free set in its iteration order. */
    method List() returns (v: seq<Address>)
      ensures Listing(v, free)
    {
      v := [];
      var rest := free;
      while rest != {}
        invariant rest <= free
        invariant forall i, j | 0 <= i < j < |v| :: v[i] < v[j]
        invariant forall a :: a in v <==> a in free && a !in rest
        invariant forall i, a | 0 <= i < |v| && a in rest :: v[i] < a
        decreases rest
      {
        LeastExists(rest);
        var ip: Address :| ip in rest && forall x | x in rest :: ip <= x;
        v := v + [ip];
        rest := rest - {ip};
      }
    }

    /** `window.iter().enumerate().all(...)` on the window that starts at `w`. */
    static method IsConsecutive(v: seq<Address>, w: nat, size: nat) returns (ok: bool)
      requires w + size <= |v|
      ensures ok <==> Consecutive(v, w, size)
    {
      for i := 0 to size
        invariant forall k | w <= k < w + i :: v[k] == v[w] + (k - w)
      {
        if v[w + i] != v[w] + i { return false; }
      }
      return true;
    }

    /** Removes the addresses from `start` up to `start + size`, an end that wraps to zero. */
    method RemoveRange(start: Address, size: nat)
      requires start + size <= SPACE
      modifies this
      ensures free == if start + size < SPACE then old(free) - Block(start, size) else old(free)
    {
      var end := (start + size) % SPACE;
      var ip: nat := start;
      BlockEmpty(start, 0);
      while ip < end
        invariant start <= ip && (ip <= end || ip == start)
        invariant free == old(free) - Block(start, ip - start)
      {
        BlockStep(start, ip - start);
        free := free - {ip};
        ip := ip + 1;
      }
      assert start + size < SPACE ==> Block(start, ip - start) == Block(start, size) by {
        if start + size < SPACE && size == 0 { BlockEmpty(start, size); }
      }
    }

    /** The sliding-window search: the lowest aligned block that is wholly free, and only that block is
        taken out (unless it ends at the end of the address space, where nothing is taken out). */
    method AllocateSubnet(prefix: nat) returns (r: Option<Cidr>)
      modifies this
      ensures r.Some? ==>
                && r.value.prefix == prefix && LowestFreeBlock(old(free), r.value.network, Bits(prefix))
                && free == if r.value.network + Size(prefix) < SPACE
                    then old(free) - Block(r.value.network, Size(prefix)) else old(free)
      ensures r.None? ==> free == old(free)
      ensures r.None? && |old(free)| != SPACE ==> forall a: Address :: !FreeBlock(old(free), a, Bits(prefix))
    {
      var bits, size := Bits(prefix), Size(prefix);
      var v := List();
      ListingLength(v, free);
      AtMostSpace(free);
      if |v| % SPACE < size {
        forall a: Address | FreeBlock(free, a, bits) ensures size <= |v| { LaterWindow(free, v, 0, bits, a); }
        return None;
      }
      for w := 0 to |v| - size + 1
        invariant free == old(free)
        invariant forall u: nat | u < w :: !FreeBlock(free, v[u], bits)
      {
        var start := v[w];
        if Aligned(start, bits) {
          var ok := IsConsecutive(v, w, size);
          if ok {
            WindowIsFree(free, v, w, size);
            forall a: Address | FreeBlock(free, a, bits) ensures start <= a { LaterWindow(free, v, w, bits, a); }
            RemoveRange(start, size);
            return Some(Cidr(start, prefix));
          }
          if FreeBlock(free, start, bits) { WindowMustMatch(free, v, w, bits); }
        }
      }
      forall a: Address ensures !FreeBlock(free, a, bits) {
        if FreeBlock(free, a, bits) { LaterWindow(free, v, |v| - size + 1, bits, a); }
      }
      r := None;
    }
  }

  lemma WindowMustMatch(free: set<Address>, v: seq<Address>, w: nat, bits: nat)
    requires Listing(v, free) && w < |v| && FreeBlock(free, v[w], bits)
    ensures Consecutive(v, w, Pow2(bits))
  {
    FreeBlockIsWindow(free, v, v[w], bits);
  }

  lemma {:induction false} AtMostSpace(s: set<Address>)
    ensures |s| <= SPACE
  {
    Bounded(s, SPACE);
  }

  lemma {:induction false} Bounded(s: set<Address>, n: nat)
    requires forall a | a in s :: a < n
    ensures |s| <= n
    decreases n
  {
    if n == 0 {
      assert s == {};
    } else if n - 1 < SPACE {
      Bounded(s - {n - 1}, n - 1);
    } else {
      Bounded(s, n - 1);
    }
  }
}
