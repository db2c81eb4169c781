/** Whole runs of the address pool: nothing is lost, nothing is handed out twice. */
module IpLedger {
  import opened IpPool
  import opened Prelude

  datatype Grant = Grant(start: Address, size: nat)

  /** A pool together with what its callers hold: single addresses and carved blocks. */
  datatype Ledger = Ledger(free: set<Address>, held: set<Address>, grants: seq<Grant>)

  ghost function Carved(grants: seq<Grant>): set<Address> {
    if grants == [] then {}
    else Carved(grants[..|grants| - 1]) + Block(grants[|grants| - 1].start, grants[|grants| - 1].size)
  }

  /** Free, held and carved addresses are pairwise disjoint, no two blocks meet, and together they are
      the usable addresses. */
  ghost predicate Partition(l: Ledger, usable: set<Address>) {
    && l.free !! l.held && l.free !! Carved(l.grants) && l.held !! Carved(l.grants)
    && l.free + l.held + Carved(l.grants) == usable
    && forall i, j | 0 <= i < j < |l.grants| ::
         Block(l.grants[i].start, l.grants[i].size) !! Block(l.grants[j].start, l.grants[j].size)
  }

  datatype Op = Alloc(ip: Address) | Free(ip: Address) | Carve(start: Address, prefix: nat) | Refused

  ghost function AfterAlloc(l: Ledger, ip: Address): Ledger {
    l.(free := l.free - {ip}, held := l.held + {ip})
  }

  ghost function AfterFree(l: Ledger, ip: Address): Ledger {
    l.(free := l.free + {ip}, held := l.held - {ip})
  }

  /** A block that ends at the end of the address space is granted without being taken out. */
  ghost function AfterCarve(l: Ledger, start: Address, prefix: nat): Ledger {
    l.(free := if start + Size(prefix) < SPACE then l.free - Block(start, Size(prefix)) else l.free,
       grants := l.grants + [Grant(start, Size(prefix))])
  }

  ghost function AfterExpand(l: Ledger, c: Cidr): Ledger {
    l.(free := l.free + c.Range())
  }

  /** One call of the pool, with callers that release only what they hold. */
  ghost predicate Step(l: Ledger, op: Op, l': Ledger) {
    match op
    case Alloc(ip) => IsLeast(ip, l.free) && l' == AfterAlloc(l, ip)
    case Free(ip) => ip in l.held && l' == AfterFree(l, ip)
    case Carve(start, prefix) => LowestFreeBlock(l.free, start, Bits(prefix)) && l' == AfterCarve(l, start, prefix)
    case Refused => l' == l
  }

  ghost predicate Run(states: seq<Ledger>, ops: seq<Op>) {
    |states| == |ops| + 1 && forall i | 0 <= i < |ops| :: Step(states[i], ops[i], states[i + 1])
  }

  lemma CarvedOneMore(grants: seq<Grant>, g: Grant)
    ensures Carved(grants + [g]) == Carved(grants) + Block(g.start, g.size)
  {
    assert (grants + [g])[..|grants|] == grants;
  }

  lemma {:induction false} CarvedContains(grants: seq<Grant>, i: nat)
    requires i < |grants|
    ensures Block(grants[i].start, grants[i].size) <= Carved(grants)
    decreases |grants|
  {
    if i < |grants| - 1 { CarvedContains(grants[..|grants| - 1], i); }
  }

  /** Granting a block keeps the partition exactly when the block ends before the end of the space. */
  lemma CarveKeepsPartitionIff(l: Ledger, usable: set<Address>, start: Address, prefix: nat)
    requires Partition(l, usable) && FreeBlock(l.free, start, Bits(prefix))
    ensures Partition(AfterCarve(l, start, prefix), usable) <==> start + Size(prefix) < SPACE
  {
    var size := Size(prefix);
    var g := Grant(start, size);
    CarvedOneMore(l.grants, g);
    assert InBlock(start, start, size) && start in Block(start, size);
    var l' := AfterCarve(l, start, prefix);
    if start + size < SPACE {
      forall i, j | 0 <= i < j < |l'.grants|
        ensures Block(l'.grants[i].start, l'.grants[i].size) !! Block(l'.grants[j].start, l'.grants[j].size)
      {
        CarvedContains(l.grants, i);
      }
    }
  }

  /** Releasing any address keeps the partition exactly when the address is held, or free already. */
  lemma ReleaseKeepsPartitionIff(l: Ledger, usable: set<Address>, ip: Address)
    requires Partition(l, usable)
    ensures Partition(AfterFree(l, ip), usable) <==> ip in l.held || ip in l.free
  {
    var l' := AfterFree(l, ip);
    if ip in l.held || ip in l.free {
      assert l'.free + l'.held + Carved(l'.grants) == usable;
    } else {
      assert ip in l'.free && (ip in Carved(l.grants) || ip !in usable);
    }
  }

  /** Expanding keeps a partition, now of the larger set, exactly when nothing of the new range is held
      or carved. */
  lemma ExpandKeepsPartitionIff(l: Ledger, usable: set<Address>, c: Cidr)
    requires Partition(l, usable)
    ensures Partition(AfterExpand(l, c), usable + c.Range()) <==> c.Range() !! l.held && c.Range() !! Carved(l.grants)
  {
    var l' := AfterExpand(l, c);
    assert l'.free + l'.held + Carved(l'.grants) == usable + c.Range();
  }

  lemma StepKeepsPartition(l: Ledger, op: Op, l': Ledger, usable: set<Address>)
    requires Partition(l, usable) && Step(l, op, l') && SPACE - 1 !in usable
    ensures Partition(l', usable)
  {
    match op
    case Alloc(ip) => assert l'.free + l'.held + Carved(l'.grants) == usable;
    case Free(ip) => ReleaseKeepsPartitionIff(l, usable, ip);
    case Carve(start, prefix) =>
      CarveKeepsPartitionIff(l, usable, start, prefix);
      LastAddressIsNotGranted(l, usable, start, prefix);
    case Refused =>
  }

  lemma LastAddressIsNotGranted(l: Ledger, usable: set<Address>, start: Address, prefix: nat)
    requires Partition(l, usable) && FreeBlock(l.free, start, Bits(prefix)) && SPACE - 1 !in usable
    ensures start + Size(prefix) < SPACE
  {
    var top: Address := SPACE - 1;
    assert top !in Block(start, Size(prefix));
    assert !InBlock(top, start, Size(prefix));
  }

  /** Over every run the partition of the usable addresses is kept in every state. */
  lemma {:induction false} RunsKeepPartition(states: seq<Ledger>, ops: seq<Op>, usable: set<Address>, i: nat)
    requires Run(states, ops) && i < |states| && SPACE - 1 !in usable
    requires Partition(states[0], usable)
    ensures Partition(states[i], usable)
    decreases i
  {
    if i > 0 {
      RunsKeepPartition(states, ops, usable, i - 1);
      StepKeepsPartition(states[i - 1], ops[i - 1], states[i], usable);
    }
  }

  /** From a fresh pool with a prefix of 1 to 30 bits, no state of any run has handed out the network,
      the gateway or the broadcast address. */
  lemma RunsNeverGrantReserved(states: seq<Ledger>, ops: seq<Op>, c: Cidr, i: nat)
    requires Run(states, ops) && i < |states| && c.Valid() && 1 <= c.prefix <= 30
    requires states[0] == Ledger(c.Usable(), {}, [])
    ensures Partition(states[i], c.Usable())
    ensures {c.network, Gateway(c), c.network + Size(c.prefix) - 1} !! states[i].held + Carved(states[i].grants)
  {
    UsableExcludesReserved(c);
    assert Partition(states[0], c.Usable());
    RunsKeepPartition(states, ops, c.Usable(), i);
  }
}
