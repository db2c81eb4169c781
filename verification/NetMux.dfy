/** Pod addresses in the network engine: attach with its two roll-back paths, detach, and the release
    that always goes to the main pool. */
module NetMux {
  import opened Prelude
  import opened IpPool

  datatype PoolValue = PoolValue(cidr: Cidr, free: set<Address>)

  /** The main pool and the pools registered for named subnets. */
  datatype Mux = Mux(pool: PoolValue, subnets: map<string, PoolValue>)

  function Give(p: PoolValue, ip: Address): PoolValue {
    p.(free := p.free + {ip})
  }

  function Take(p: PoolValue, ip: Address): PoolValue {
    p.(free := p.free - {ip})
  }

  /** The effect of `release_ip`: the address always joins the main pool, and one registered pool whose
      network contains it, if there is one; which one is up to the map's iteration order. */
  ghost predicate Released(m: Mux, ip: Address, m': Mux) {
    && m'.pool == Give(m.pool, ip)
    && (if exists n :: n in m.subnets && m.subnets[n].cidr.Contains(ip)
        then exists n :: n in m.subnets && m.subnets[n].cidr.Contains(ip)
                         && m'.subnets == m.subnets[n := Give(m.subnets[n], ip)]
        else m'.subnets == m.subnets)
  }

  /** How far the system calls of `attach_pod` get. */
  datatype Fate = VethFails | LinkUpFails | RouteFails | Attaches

  /** What happens to an address once it is taken: the two later failures roll it back. */
  ghost predicate Settles(m: Mux, ip: Address, fate: Fate, m': Mux) {
    if fate.LinkUpFails? || fate.RouteFails? then Released(m, ip, m') else m' == m
  }

  /** The address comes from the pool that was asked for. */
  ghost predicate Allocated(m: Mux, subnet: Option<string>, ip: Address, m': Mux) {
    match subnet
    case None => IsLeast(ip, m.pool.free) && m' == m.(pool := Take(m.pool, ip))
    case Some(n) =>
      n in m.subnets && IsLeast(ip, m.subnets[n].free) && m' == m.(subnets := m.subnets[n := Take(m.subnets[n], ip)])
  }

  ghost predicate CannotAllocate(m: Mux, subnet: Option<string>) {
    match subnet
    case None => m.pool.free == {}
    case Some(n) => n !in m.subnets || m.subnets[n].free == {}
  }

  class Engine {
    var pool: PoolValue
    var subnetPools: map<string, PoolValue>

    ghost function State(): Mux
      reads this
    {
      Mux(pool, subnetPools)
    }

    constructor (c: Cidr)
      requires c.Valid()
      ensures pool == PoolValue(c, c.Usable()) && subnetPools == map[]
    {
      var p := new Pool(c);
      pool := PoolValue(c, p.free);
      subnetPools := map[];
    }

    method RegisterSubnetCidr(name: string, c: Cidr)
      requires c.Valid()
      modifies this
      ensures pool == old(pool) && subnetPools == old(subnetPools)[name := PoolValue(c, c.Usable())]
    {
      var p := new Pool(c);
      subnetPools := subnetPools[name := PoolValue(c, p.free)];
    }

    method ReleaseIp(ip: Address)
      modifies this
      ensures Released(old(State()), ip, State())
    {
      pool := Give(pool, ip);
      var todo := subnetPools.Keys;
      while todo != {}
        invariant todo <= subnetPools.Keys
        invariant pool == Give(old(pool), ip) && subnetPools == old(subnetPools)
        invariant forall n | n in subnetPools && n !in todo :: !subnetPools[n].cidr.Contains(ip)
        decreases todo
      {
        var n :| n in todo;
        if subnetPools[n].cidr.Contains(ip) {
          subnetPools := subnetPools[n := Give(subnetPools[n], ip)];
          return;
        }
        todo := todo - {n};
      }
    }

    /** Takes the least free address of the asked pool. */
    method Obtain(subnet: Option<string>) returns (r: Option<Address>)
      modifies this
      ensures r.None? ==> CannotAllocate(old(State()), subnet) && State() == old(State())
      ensures r.Some? ==> Allocated(old(State()), subnet, r.value, State())
    {
      var rest: set<Address>;
      if subnet.Some? {
        var n := subnet.value;
        if n !in subnetPools { return None; }
        r, rest := PopFirst(subnetPools[n].free);
        if r.Some? {
          subnetPools := subnetPools[n := subnetPools[n].(free := rest)];
        }
      } else {
        r, rest := PopFirst(pool.free);
        pool := pool.(free := rest);
      }
    }

    /** Obtain an address, create the link, bring it up, route to it. A failed link creation returns at
        once with the address still taken; the two later failures release it. */
    method AttachPod(subnet: Option<string>, fate: Fate) returns (r: Option<Address>)
      modifies this
      ensures CannotAllocate(old(State()), subnet) ==> r.None? && State() == old(State())
      ensures !CannotAllocate(old(State()), subnet) ==>
                exists ip: Address, m :: Allocated(old(State()), subnet, ip, m) && Settles(m, ip, fate, State())
                                         && r == (if fate.Attaches? then Some(ip) else None)
    {
      var got := Obtain(subnet);
      if got.None? { return None; }
      var ip := got.value;
      ghost var m := State();
      assert Allocated(old(State()), subnet, ip, m);
      if fate == VethFails { return None; }
      if fate == LinkUpFails {
        ReleaseIp(ip);
        return None;
      }
      if fate == RouteFails {
        ReleaseIp(ip);
        return None;
      }
      r := Some(ip);
    }

    method DetachPod(ip: Address)
      modifies this
      ensures Released(old(State()), ip, State())
    {
      ReleaseIp(ip);
    }
  }

  /** An attach finds no address exactly when no address could be allocated. */
  lemma CannotAllocateIff(m: Mux, subnet: Option<string>)
    ensures CannotAllocate(m, subnet) <==> forall ip: Address, m' :: !Allocated(m, subnet, ip, m')
  {
    if !CannotAllocate(m, subnet) {
      match subnet
      case None =>
        LeastExists(m.pool.free);
        var ip :| IsLeast(ip, m.pool.free);
        assert Allocated(m, subnet, ip, m.(pool := Take(m.pool, ip)));
      case Some(n) =>
        LeastExists(m.subnets[n].free);
        var ip :| IsLeast(ip, m.subnets[n].free);
        assert Allocated(m, subnet, ip, m.(subnets := m.subnets[n := Take(m.subnets[n], ip)]));
    }
  }

  /** Where an address comes from and goes: attaching takes it out of the asked pool and nothing else, and only a
      failure after the link was created gives it back. */
  lemma AttachMoves(m: Mux, subnet: Option<string>, fate: Fate, ip: Address, taken: Mux, after: Mux)
    requires Allocated(m, subnet, ip, taken) && Settles(taken, ip, fate, after)
    ensures taken.pool.free == if subnet == None then m.pool.free - {ip} else m.pool.free
    ensures taken.pool.cidr == m.pool.cidr && taken.subnets.Keys == m.subnets.Keys
    ensures forall n | n in m.subnets ::
              taken.subnets[n].cidr == m.subnets[n].cidr
              && taken.subnets[n].free == if subnet == Some(n) then m.subnets[n].free - {ip} else m.subnets[n].free
    ensures fate == VethFails || fate == Attaches ==> after == taken
    ensures fate == LinkUpFails || fate == RouteFails ==> after.pool.free == taken.pool.free + {ip}
  {
  }

  // ---------------------------------------------------------------------
  // When release undoes allocation
  // ---------------------------------------------------------------------

  /** Every registered pool that could receive the address has it already. */
  ghost predicate NoPoolGains(m: Mux, ip: Address) {
    forall n | n in m.subnets && m.subnets[n].cidr.Contains(ip) :: ip in m.subnets[n].free
  }

  /** An address taken from the main pool: releasing it restores every pool, whatever the iteration
      order, exactly when no registered network contains it without having it free. */
  lemma MainReleaseRestoresIff(m: Mux, ip: Address, m1: Mux)
    requires Allocated(m, None, ip, m1)
    ensures (forall m2 | Released(m1, ip, m2) :: m2 == m) <==> NoPoolGains(m, ip)
  {
    assert Give(m1.pool, ip) == m.pool;
    if NoPoolGains(m, ip) {
      forall m2 | Released(m1, ip, m2) ensures m2 == m {
        if n :| n in m.subnets && m.subnets[n].cidr.Contains(ip)
                && m2.subnets == m.subnets[n := Give(m.subnets[n], ip)] {
          assert Give(m.subnets[n], ip) == m.subnets[n];
        }
      }
    } else {
      var n :| n in m.subnets && m.subnets[n].cidr.Contains(ip) && ip !in m.subnets[n].free;
      var m2 := Mux(m.pool, m.subnets[n := Give(m.subnets[n], ip)]);
      assert Released(m1, ip, m2);
      assert m2.subnets[n] != m.subnets[n];
    }
  }

  /** An address taken from a named subnet joins the main pool when it is released, and the pool of any one
      registered network that contains it. So the release restores every pool, whatever the iteration order, exactly
      when the main pool had the address already and the subnet's own network is the only one that contains it. */
  lemma NamedReleaseRestoresIff(m: Mux, n: string, ip: Address, m1: Mux)
    requires Allocated(m, Some(n), ip, m1)
    ensures (forall m2 | Released(m1, ip, m2) :: m2 == m) <==>
            ip in m.pool.free && m.subnets[n].cidr.Contains(ip)
            && forall k | k in m.subnets && k != n :: !m.subnets[k].cidr.Contains(ip)
  {
    assert Give(m1.subnets[n], ip) == m.subnets[n];
    if k :| k in m.subnets && k != n && m.subnets[k].cidr.Contains(ip) {
      var m2 := Mux(Give(m.pool, ip), m1.subnets[k := Give(m1.subnets[k], ip)]);
      assert k in m1.subnets && m1.subnets[k].cidr.Contains(ip) && Released(m1, ip, m2);
      assert ip !in m2.subnets[n].free;
    } else if m.subnets[n].cidr.Contains(ip) {
      OnlyNetworkReceives(m, n, ip, m1);
    } else {
      var m2 := Mux(Give(m.pool, ip), m1.subnets);
      assert forall k | k in m1.subnets :: m1.subnets[k].cidr == m.subnets[k].cidr;
      assert Released(m1, ip, m2);
      assert ip !in m2.subnets[n].free;
    }
  }

  lemma OnlyNetworkReceives(m: Mux, n: string, ip: Address, m1: Mux)
    requires Allocated(m, Some(n), ip, m1) && m.subnets[n].cidr.Contains(ip)
    requires forall k | k in m.subnets && k != n :: !m.subnets[k].cidr.Contains(ip)
    ensures (forall m2 | Released(m1, ip, m2) :: m2 == m) <==> ip in m.pool.free
  {
    var restored := Mux(Give(m.pool, ip), m1.subnets[n := Give(m1.subnets[n], ip)]);
    assert m1.subnets[n].cidr.Contains(ip) && Released(m1, ip, restored);
    assert Give(m1.subnets[n], ip) == m.subnets[n];
    forall m2 | Released(m1, ip, m2) ensures m2 == restored {
      var k :| k in m1.subnets && m1.subnets[k].cidr.Contains(ip)
               && m2.subnets == m1.subnets[k := Give(m1.subnets[k], ip)];
      assert k == n;
    }
    assert restored.subnets == m.subnets;
    assert restored.pool == m.pool <==> ip in m.pool.free;
  }

  /** The consequence: a subnet address below the main pool's free addresses, once released, is handed
      out to one pod by the subnet and to another by the main pool. */
  lemma NamedSubnetHandsOutTwice(m: Mux, n: string, ip: Address)
    requires n in m.subnets && IsLeast(ip, m.subnets[n].free) && m.subnets[n].cidr.Contains(ip)
    requires forall x | x in m.pool.free :: ip < x
    requires forall k | k in m.subnets && k != n :: !m.subnets[k].cidr.Contains(ip)
    ensures exists m1, m2, m3, m4 ::
              && Allocated(m, Some(n), ip, m1) && Released(m1, ip, m2)
              && Allocated(m2, Some(n), ip, m3) && Allocated(m3, None, ip, m4)
  {
    var p := m.subnets[n];
    var m1 := m.(subnets := m.subnets[n := Take(p, ip)]);
    var m2 := Mux(Give(m.pool, ip), m1.subnets[n := Give(m1.subnets[n], ip)]);
    assert m1.subnets[n].cidr.Contains(ip) && Released(m1, ip, m2);
    assert m2.subnets[n].free == p.free;
    var m3 := m2.(subnets := m2.subnets[n := Take(m2.subnets[n], ip)]);
    assert Allocated(m2, Some(n), ip, m3);
    var m4 := m3.(pool := Take(m3.pool, ip));
    assert Allocated(m3, None, ip, m4);
  }

  // ---------------------------------------------------------------------
  // Runs without named subnets
  // ---------------------------------------------------------------------

  /** The engine, the addresses of attached pods, and those lost to a failed link creation. */
  datatype Net = Net(mux: Mux, attached: map<nat, Address>, lost: set<Address>)

  datatype Event = Attach(pod: nat, fate: Fate) | Detach(pod: nat) | Register(name: string, cidr: Cidr)

  ghost predicate AttachStep(s: Net, pod: nat, fate: Fate, ip: Address, m: Mux, s': Net) {
    && Allocated(s.mux, None, ip, m) && Settles(m, ip, fate, s'.mux)
    && s'.attached == (if fate.Attaches? then s.attached[pod := ip] else s.attached)
    && s'.lost == (if fate.VethFails? then s.lost + {ip} else s.lost)
  }

  ghost predicate Step(s: Net, e: Event, s': Net) {
    match e
    case Attach(pod, fate) =>
      && pod !in s.attached
      && (if CannotAllocate(s.mux, None) then s' == s
          else exists ip: Address, m :: AttachStep(s, pod, fate, ip, m, s'))
    case Detach(pod) =>
      && pod in s.attached && s'.attached == s.attached - {pod} && s'.lost == s.lost
      && Released(s.mux, s.attached[pod], s'.mux)
    case Register(name, cidr) =>
      s' == s.(mux := s.mux.(subnets := s.mux.subnets[name := PoolValue(cidr, cidr.Usable())]))
  }

  /** No registered network contains an address of the main pool. */
  ghost predicate Apart(c: Cidr, usable: set<Address>) {
    forall a | a in usable :: !c.Contains(a)
  }

  ghost predicate Run(states: seq<Net>, events: seq<Event>, usable: set<Address>) {
    && |states| == |events| + 1
    && (forall i | 0 <= i < |events| :: Step(states[i], events[i], states[i + 1]))
    && (forall i | 0 <= i < |events| :: events[i].Register? ==> Apart(events[i].cidr, usable))
  }

  ghost function InUse(s: Net): set<Address> {
    s.attached.Values + s.lost
  }

  ghost predicate Invariant(s: Net, usable: set<Address>) {
    && s.mux.pool.free !! InUse(s) && s.mux.pool.free + InUse(s) == usable
    && s.attached.Values !! s.lost
    && (forall p, q | p in s.attached && q in s.attached && p != q :: s.attached[p] != s.attached[q])
    && (forall n | n in s.mux.subnets :: Apart(s.mux.subnets[n].cidr, usable))
  }

  /** Where no registered network contains the address, release touches the main pool only. */
  lemma ReleaseApart(m: Mux, ip: Address, m': Mux, usable: set<Address>)
    requires ip in usable && (forall n | n in m.subnets :: Apart(m.subnets[n].cidr, usable)) && Released(m, ip, m')
    ensures m' == m.(pool := Give(m.pool, ip))
  {
    assert !exists n :: n in m.subnets && m.subnets[n].cidr.Contains(ip);
  }

  /** A rolled-back attach restores the whole state exactly. */
  lemma RollbackRestores(s: Net, pod: nat, fate: Fate, ip: Address, m: Mux, s': Net, usable: set<Address>)
    requires Invariant(s, usable) && (fate.LinkUpFails? || fate.RouteFails?) && AttachStep(s, pod, fate, ip, m, s')
    ensures s' == s
  {
    ReleaseApart(m, ip, s'.mux, usable);
    assert Give(m.pool, ip) == s.mux.pool;
  }

  /** Detaching a pod that was just attached restores the whole state exactly. */
  lemma DetachUndoesAttach(s: Net, pod: nat, ip: Address, m: Mux, s1: Net, s2: Net, usable: set<Address>)
    requires Invariant(s, usable) && pod !in s.attached
    requires AttachStep(s, pod, Attaches, ip, m, s1) && Step(s1, Detach(pod), s2)
    ensures s2 == s
  {
    ReleaseApart(s1.mux, ip, s2.mux, usable);
    assert Give(m.pool, ip) == s.mux.pool;
    assert s.attached[pod := ip] - {pod} == s.attached;
  }

  lemma ValuesAfterAdd(m: map<nat, Address>, p: nat, ip: Address)
    requires p !in m
    ensures m[p := ip].Values == m.Values + {ip}
  {
    var m' := m[p := ip];
    assert m'[p] == ip;
    forall k | k in m ensures m[k] in m'.Values { assert m'[k] == m[k]; }
  }

  lemma ValuesAfterRemove(m: map<nat, Address>, p: nat)
    requires p in m && forall q | q in m && q != p :: m[q] != m[p]
    ensures (m - {p}).Values == m.Values - {m[p]}
  {
    var m' := m - {p};
    forall k | k in m && k != p ensures m[k] in m'.Values { assert m'[k] == m[k]; }
  }

  lemma AttachKeepsInvariant(s: Net, pod: nat, fate: Fate, ip: Address, m: Mux, s': Net, usable: set<Address>)
    requires Invariant(s, usable) && pod !in s.attached && AttachStep(s, pod, fate, ip, m, s')
    ensures Invariant(s', usable)
  {
    if fate.LinkUpFails? || fate.RouteFails? {
      RollbackRestores(s, pod, fate, ip, m, s', usable);
    } else {
      assert ip !in s.attached.Values;
      ValuesAfterAdd(s.attached, pod, ip);
      assert s'.mux.pool.free + InUse(s') == usable;
    }
  }

  lemma DetachKeepsInvariant(s: Net, pod: nat, s': Net, usable: set<Address>)
    requires Invariant(s, usable) && Step(s, Detach(pod), s')
    ensures Invariant(s', usable)
  {
    var ip := s.attached[pod];
    assert ip in s.attached.Values;
    ReleaseApart(s.mux, ip, s'.mux, usable);
    ValuesAfterRemove(s.attached, pod);
    assert s'.mux.pool.free + InUse(s') == usable;
  }

  /** Over every run that attaches without a named subnet, attached pods have pairwise distinct
      addresses, and the usable addresses are exactly the free, the attached and the lost ones. */
  lemma {:induction false} RunsKeepAddressesApart(states: seq<Net>, events: seq<Event>, usable: set<Address>, i: nat)
    requires Run(states, events, usable) && i < |states| && Invariant(states[0], usable)
    ensures Invariant(states[i], usable)
    decreases i
  {
    if i > 0 {
      RunsKeepAddressesApart(states, events, usable, i - 1);
      var s, s' := states[i - 1], states[i];
      assert Step(s, events[i - 1], s');
      match events[i - 1]
      case Attach(pod, fate) =>
        if !CannotAllocate(s.mux, None) {
          var ip: Address, m :| AttachStep(s, pod, fate, ip, m, s');
          AttachKeepsInvariant(s, pod, fate, ip, m, s', usable);
        }
      case Detach(pod) => DetachKeepsInvariant(s, pod, s', usable);
      case Register(name, cidr) =>
    }
  }

  /** A fresh engine satisfies the invariant. */
  lemma FreshEngine(c: Cidr)
    ensures Invariant(Net(Mux(PoolValue(c, c.Usable()), map[]), map[], {}), c.Usable())
  {
  }
}
