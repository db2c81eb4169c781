/** Dynamic volume provisioning (`ProvisionerDispatcher`): any number of tasks, interleaved at the granularity
    of the dispatcher's own lock and of the store's operations. */
module Provisioning {
  import opened Prelude

  datatype Spec = Spec(storageClass: Option<string>, volume: Option<string>, request: string)

  datatype Claim = Claim(ns: Option<string>, name: Option<string>, uid: Option<string>, spec: Option<Spec>,
                         phase: Option<string>)

  datatype Volume = Volume(name: string, provisioner: string, claimNs: Option<string>, claimName: Option<string>,
                           request: string, phase: string)

  datatype Result = Ok | Err

  function UnwrapOr(o: Option<string>, default: string): string {
    if o.Some? then o.value else default
  }

  function KeyOf(ns: string, name: string): string {
    "PersistentVolumeClaim/" + ns + "/" + name
  }

  /** Where the store keeps a claim. */
  function StoreKey(c: Claim): string {
    KeyOf(UnwrapOr(c.ns, "default"), UnwrapOr(c.name, "<unnamed>"))
  }

  /** Where the dispatcher looks for a claim; it differs from the store's key for a claim without a name. */
  function CheckKey(c: Claim): string {
    KeyOf(UnwrapOr(c.ns, "default"), UnwrapOr(c.name, "unknown"))
  }

  function NameText(ns: string, name: string): string {
    "pvc-" + ns + "--" + name
  }

  function VolumeName(c: Claim): string {
    NameText(UnwrapOr(c.ns, "default"), UnwrapOr(c.name, "unknown"))
  }

  /** The built-in storage classes. */
  function Provisioner(storageClass: string): Option<string> {
    if storageClass == "standard" then Some("z8s.io/loop")
    else if storageClass == "hostpath" then Some("z8s.io/hostpath")
    else None
  }

  /** What passes the checks made before the lock is taken. */
  predicate Eligible(c: Claim) {
    c.uid.Some? && c.spec.Some? && c.spec.value.storageClass.Some? && c.spec.value.volume.None?
  }

  function Bound(c: Claim): Claim
    requires c.spec.Some?
  {
    c.(spec := Some(c.spec.value.(volume := Some(VolumeName(c)))), phase := Some("Bound"))
  }

  function VolumeFor(c: Claim, provisioner: string): Volume
    requires c.spec.Some?
  {
    Volume(VolumeName(c), provisioner, c.ns, c.name, c.spec.value.request, "Bound")
  }

  predicate HasVolume(c: Claim) {
    c.spec.Some? && c.spec.value.volume.Some?
  }

  predicate BoundAt(claims: map<string, Claim>, key: string) {
    key in claims && HasVolume(claims[key])
  }

  // ---------------------------------------------------------------------
  // One task, step by step
  // ---------------------------------------------------------------------

  /** What provisioning tasks share; `made` counts the backend's successes by claim uid. */
  datatype Shared = Shared(inflight: set<string>, claims: map<string, Claim>, volumes: map<string, Volume>,
                           made: multiset<string>)

  datatype Pc = Begin | Acquire | Check | Provision | WriteVolume | WriteClaim | Release(result: Result)
              | Done(result: Result)

  datatype Task = Task(claim: Claim, pc: Pc)

  predicate Critical(pc: Pc) {
    pc.Check? || pc.Provision? || IsWriting(pc) || pc.Release?
  }

  predicate IsWriting(pc: Pc) {
    pc.WriteVolume? || pc.WriteClaim?
  }

  predicate Consistent(t: Task) {
    (t.pc.Begin? || t.pc.Done? || Eligible(t.claim))
    && (IsWriting(t.pc) ==> Provisioner(t.claim.spec.value.storageClass.value).Some?)
  }

  function Step(sh: Shared, t: Task, backendOk: bool): (r: (Shared, Task))
    requires Consistent(t)
    ensures Consistent(r.1) && r.1.claim == t.claim
  {
    var c := t.claim;
    match t.pc
    case Begin =>
      var pc :=
        if c.spec.None? then Done(Err)
        else if c.spec.value.storageClass.None? || c.spec.value.volume.Some? then Done(Ok)
        else if c.uid.None? then Done(Err)
        else Acquire;
      (sh, t.(pc := pc))
    case Acquire =>
      if c.uid.value in sh.inflight then (sh, t.(pc := Done(Ok)))
      else (sh.(inflight := sh.inflight + {c.uid.value}), t.(pc := Check))
    case Check =>
      (sh, t.(pc := if BoundAt(sh.claims, CheckKey(c)) then Release(Ok) else Provision))
    case Provision =>
      if Provisioner(c.spec.value.storageClass.value).None? || !backendOk then (sh, t.(pc := Release(Err)))
      else (sh.(made := sh.made + multiset{c.uid.value}), t.(pc := WriteVolume))
    case WriteVolume =>
      var v := VolumeFor(c, Provisioner(c.spec.value.storageClass.value).value);
      (sh.(volumes := sh.volumes[v.name := v]), t.(pc := WriteClaim))
    case WriteClaim =>
      (sh.(claims := sh.claims[StoreKey(c) := Bound(c)]), t.(pc := Release(Ok)))
    case Release(result) =>
      (sh.(inflight := sh.inflight - {c.uid.value}), t.(pc := Done(result)))
    case Done(_) => (sh, t)
  }

  function Rank(pc: Pc): nat {
    match pc
    case Begin => 7
    case Acquire => 6
    case Check => 5
    case Provision => 4
    case WriteVolume => 3
    case WriteClaim => 2
    case Release(_) => 1
    case Done(_) => 0
  }

  /** A task that runs to its end with nothing in between. */
  function Finish(sh: Shared, t: Task, backendOk: bool): (r: (Shared, Task))
    requires Consistent(t)
    ensures r.1.pc.Done? && r.1.claim == t.claim
    decreases Rank(t.pc)
  {
    if t.pc.Done? then (sh, t)
    else
      var next := Step(sh, t, backendOk);
      Finish(next.0, next.1, backendOk)
  }

  class Dispatcher {
    var inflight: set<string>
    var claims: map<string, Claim>
    var volumes: map<string, Volume>
    ghost var made: multiset<string>

    ghost function State(): Shared
      reads this
    {
      Shared(inflight, claims, volumes, made)
    }

    constructor (claims: map<string, Claim>, volumes: map<string, Volume>)
      ensures State() == Shared({}, claims, volumes, multiset{})
    {
      inflight := {};
      this.claims := claims;
      this.volumes := volumes;
      made := multiset{};
    }

    /** `do_provision`, with the backend's outcome as a parameter. */
    method DoProvision(claim: Claim, backendOk: bool) returns (result: Result)
      requires Eligible(claim)
      modifies this
      ensures Finish(State(), Task(claim, Release(result)), backendOk)
              == Finish(old(State()), Task(claim, Provision), backendOk)
    {
      var provisioner := Provisioner(claim.spec.value.storageClass.value);
      if provisioner.None? || !backendOk { return Err; }
      made := made + multiset{claim.uid.value};
      assert Finish(State(), Task(claim, WriteVolume), backendOk)
          == Finish(old(State()), Task(claim, Provision), backendOk);
      var volume := VolumeFor(claim, provisioner.value);
      volumes := volumes[volume.name := volume];
      assert Finish(State(), Task(claim, WriteClaim), backendOk)
          == Finish(old(State()), Task(claim, Provision), backendOk);
      claims := claims[StoreKey(claim) := Bound(claim)];
      return Ok;
    }

    /** An uninterrupted call is a provisioning task's steps in order. */
    method ProvisionForPvc(claim: Claim, backendOk: bool) returns (result: Result)
      modifies this
      ensures (State(), Task(claim, Done(result))) == Finish(old(State()), Task(claim, Begin), backendOk)
    {
      if claim.spec.None? { return Err; }
      var spec := claim.spec.value;
      if spec.storageClass.None? || spec.volume.Some? { return Ok; }
      if claim.uid.None? { return Err; }
      var uid := claim.uid.value;
      assert Finish(State(), Task(claim, Begin), backendOk) == Finish(State(), Task(claim, Acquire), backendOk);
      if uid in inflight {
        assert Finish(State(), Task(claim, Acquire), backendOk) == (State(), Task(claim, Done(Ok)));
        return Ok;
      }
      inflight := inflight + {uid};
      assert Finish(State(), Task(claim, Check), backendOk) == Finish(old(State()), Task(claim, Acquire), backendOk);
      var key := CheckKey(claim);
      if key in claims && HasVolume(claims[key]) {
        ReleaseOutcome(State(), claim, Ok, backendOk);
        inflight := inflight - {uid};
        return Ok;
      }
      assert Finish(State(), Task(claim, Check), backendOk) == Finish(State(), Task(claim, Provision), backendOk);
      result := DoProvision(claim, backendOk);
      ReleaseOutcome(State(), claim, result, backendOk);
      inflight := inflight - {uid};
    }
  }

  /** Whether an uninterrupted call provisions. */
  predicate Provisions(sh: Shared, c: Claim, backendOk: bool) {
    Eligible(c) && c.uid.value !in sh.inflight && !BoundAt(sh.claims, CheckKey(c))
    && Provisioner(c.spec.value.storageClass.value).Some? && backendOk
  }

  /** Whether an uninterrupted call reports an error. */
  predicate Fails(sh: Shared, c: Claim, backendOk: bool) {
    c.spec.None?
    || (c.spec.value.storageClass.Some? && c.spec.value.volume.None?
        && (c.uid.None?
            || (c.uid.value !in sh.inflight && !BoundAt(sh.claims, CheckKey(c))
                && (Provisioner(c.spec.value.storageClass.value).None? || !backendOk))))
  }

  /** An uninterrupted call leaves `inflight` as it was on every path; it writes the volume and the bound claim
      together or nothing. */
  lemma AloneOutcome(sh: Shared, c: Claim, backendOk: bool)
    ensures var r := Finish(sh, Task(c, Begin), backendOk);
            && r.0.inflight == sh.inflight
            && (r.1.pc.result == Err <==> Fails(sh, c, backendOk))
            && (if Provisions(sh, c, backendOk) then
                  var v := VolumeFor(c, Provisioner(c.spec.value.storageClass.value).value);
                  r.0 == Shared(sh.inflight, sh.claims[StoreKey(c) := Bound(c)], sh.volumes[VolumeName(c) := v],
                                sh.made + multiset{c.uid.value})
                else r.0 == sh)
  {
    if Eligible(c) && c.uid.value !in sh.inflight {
      var held := sh.(inflight := sh.inflight + {c.uid.value});
      assert held.inflight - {c.uid.value} == sh.inflight;
      assert Finish(sh, Task(c, Begin), backendOk) == Finish(held, Task(c, Check), backendOk);
      if BoundAt(sh.claims, CheckKey(c)) {
        ReleaseOutcome(held, c, Ok, backendOk);
        assert Finish(held, Task(c, Check), backendOk) == Finish(held, Task(c, Release(Ok)), backendOk);
      } else {
        assert Finish(held, Task(c, Check), backendOk) == Finish(held, Task(c, Provision), backendOk);
        if Provisioner(c.spec.value.storageClass.value).Some? && backendOk {
          WritesOutcome(held, c, backendOk);
        } else {
          ReleaseOutcome(held, c, Err, backendOk);
        }
      }
    } else if Eligible(c) {
      assert Finish(sh, Task(c, Begin), backendOk) == Finish(sh, Task(c, Acquire), backendOk);
      assert Finish(sh, Task(c, Acquire), backendOk) == (sh, Task(c, Done(Ok)));
    } else {
      var next := Step(sh, Task(c, Begin), backendOk);
      assert Finish(sh, Task(c, Begin), backendOk) == next;
    }
  }

  lemma WritesOutcome(sh: Shared, c: Claim, backendOk: bool)
    requires Eligible(c) && Provisioner(c.spec.value.storageClass.value).Some? && backendOk
    ensures var v := VolumeFor(c, Provisioner(c.spec.value.storageClass.value).value);
            Finish(sh, Task(c, Provision), backendOk)
            == (Shared(sh.inflight - {c.uid.value}, sh.claims[StoreKey(c) := Bound(c)],
                       sh.volumes[VolumeName(c) := v], sh.made + multiset{c.uid.value}), Task(c, Done(Ok)))
  {
    var v := VolumeFor(c, Provisioner(c.spec.value.storageClass.value).value);
    var s1 := sh.(made := sh.made + multiset{c.uid.value});
    var s2 := s1.(volumes := s1.volumes[v.name := v]);
    var s3 := s2.(claims := s2.claims[StoreKey(c) := Bound(c)]);
    assert Finish(sh, Task(c, Provision), backendOk) == Finish(s1, Task(c, WriteVolume), backendOk);
    assert Finish(s1, Task(c, WriteVolume), backendOk) == Finish(s2, Task(c, WriteClaim), backendOk);
    assert Finish(s2, Task(c, WriteClaim), backendOk) == Finish(s3, Task(c, Release(Ok)), backendOk);
    ReleaseOutcome(s3, c, Ok, backendOk);
  }

  lemma ReleaseOutcome(sh: Shared, c: Claim, result: Result, backendOk: bool)
    requires Eligible(c)
    ensures Finish(sh, Task(c, Release(result)), backendOk)
            == (sh.(inflight := sh.inflight - {c.uid.value}), Task(c, Done(result)))
  {
    var after := sh.(inflight := sh.inflight - {c.uid.value});
    assert Finish(after, Task(c, Done(result)), backendOk) == (after, Task(c, Done(result)));
  }

  // ---------------------------------------------------------------------
  // The outcome in plain terms
  // ---------------------------------------------------------------------

  /** The claim's namespace, "default" if it has none. */
  function NamespaceText(c: Claim): string {
    if c.ns.Some? then c.ns.value else "default"
  }

  /** The claim's name, or what stands for a missing one. */
  function NameOr(c: Claim, missing: string): string {
    if c.name.Some? then c.name.value else missing
  }

  /** The store holds a claim with a volume where the dispatcher looks. */
  predicate AlreadyBound(sh: Shared, c: Claim) {
    var key := "PersistentVolumeClaim/" + NamespaceText(c) + "/" + NameOr(c, "unknown");
    key in sh.claims && sh.claims[key].spec.Some? && sh.claims[key].spec.value.volume.Some?
  }

  /** What the claim is stored as, and its volume, after a call that provisioned it with this provisioner. */
  predicate ProvisionedBy(sh: Shared, c: Claim, provisioner: string, after: Shared)
    requires c.spec.Some? && c.uid.Some?
  {
    var spec := c.spec.value;
    var volume := "pvc-" + NamespaceText(c) + "--" + NameOr(c, "unknown");
    var key := "PersistentVolumeClaim/" + NamespaceText(c) + "/" + NameOr(c, "<unnamed>");
    && after.inflight == sh.inflight
    && after.made == sh.made + multiset{c.uid.value}
    && after.volumes == sh.volumes[volume := Volume(volume, provisioner, c.ns, c.name, spec.request, "Bound")]
    && after.claims == sh.claims[key := Claim(c.ns, c.name, c.uid,
                                              Some(Spec(spec.storageClass, Some(volume), spec.request)), Some("Bound"))]
  }

  lemma ClassesDiffer()
    ensures "standard" != "hostpath"
  {
    assert "standard"[0] != "hostpath"[0];
  }

  /** Every uninterrupted call: nothing to do without a class or with a volume; an error without a spec or a uid;
      nothing to do while the uid is in flight or the stored claim has a volume; then class "standard" is provisioned
      by "z8s.io/loop" and class "hostpath" by "z8s.io/hostpath", and any other class, or a failing backend, is an
      error that changes nothing. */
  lemma CallOutcome(sh: Shared, c: Claim, backendOk: bool)
    ensures var r := Finish(sh, Task(c, Begin), backendOk);
            var after, result := r.0, r.1.pc;
            if c.spec.None? then after == sh && result == Done(Err)
            else if c.spec.value.storageClass.None? || c.spec.value.volume.Some? then after == sh && result == Done(Ok)
            else if c.uid.None? then after == sh && result == Done(Err)
            else if c.uid.value in sh.inflight || AlreadyBound(sh, c) then after == sh && result == Done(Ok)
            else if !backendOk then after == sh && result == Done(Err)
            else if c.spec.value.storageClass == Some("standard")
              then ProvisionedBy(sh, c, "z8s.io/loop", after) && result == Done(Ok)
            else if c.spec.value.storageClass == Some("hostpath")
              then ProvisionedBy(sh, c, "z8s.io/hostpath", after) && result == Done(Ok)
            else after == sh && result == Done(Err)
  {
    AloneOutcome(sh, c, backendOk);
    ClassesDiffer();
  }

  // ---------------------------------------------------------------------
  // Runs
  // ---------------------------------------------------------------------

  datatype World = World(sh: Shared, tasks: map<nat, Task>)

  /** A task takes a step, a task is spawned, the API stores a claim or adds a volume. */
  datatype Event = Run(tid: nat, backendOk: bool) | Spawn(tid: nat, claim: Claim)
                 | Store(key: string, claim: Claim) | AddVolume(volume: Volume)

  /** Uid and namespace/name determine each other: `ids` gives the store key of a uid. */
  predicate Identified(ids: string -> string, c: Claim) {
    c.uid.Some? ==> c.name.Some? && StoreKey(c) == ids(c.uid.value)
  }

  /** The API keeps the volume of a bound claim and does not replace a volume. */
  ghost predicate Allowed(ids: string -> string, w: World, e: Event) {
    match e
    case Run(tid, _) => tid in w.tasks && Consistent(w.tasks[tid])
    case Spawn(tid, c) => tid !in w.tasks && Identified(ids, c)
    case Store(key, c) =>
      BoundAt(w.sh.claims, key) ==> HasVolume(c) && c.spec.value.volume == w.sh.claims[key].spec.value.volume
    case AddVolume(v) => v.name !in w.sh.volumes
  }

  ghost function Next(ids: string -> string, w: World, e: Event): World
    requires Allowed(ids, w, e)
  {
    match e
    case Run(tid, backendOk) => Stepped(w, tid, backendOk)
    case Spawn(tid, c) => w.(tasks := w.tasks[tid := Task(c, Begin)])
    case Store(key, c) => w.(sh := w.sh.(claims := w.sh.claims[key := c]))
    case AddVolume(v) => w.(sh := w.sh.(volumes := w.sh.volumes[v.name := v]))
  }

  ghost predicate Legal(ids: string -> string, w: World, events: seq<Event>)
    decreases |events|
  {
    events != [] ==> Allowed(ids, w, events[0]) && Legal(ids, Next(ids, w, events[0]), events[1..])
  }

  ghost function Execute(ids: string -> string, w: World, events: seq<Event>): World
    requires Legal(ids, w, events)
    decreases |events|
  {
    if events == [] then w else Execute(ids, Next(ids, w, events[0]), events[1..])
  }

  function Initial(claims: map<string, Claim>, volumes: map<string, Volume>): World {
    World(Shared({}, claims, volumes, multiset{}), map[])
  }

  function Turns(tid: nat, backendOk: bool, n: nat): seq<Event> {
    if n == 0 then [] else [Run(tid, backendOk)] + Turns(tid, backendOk, n - 1)
  }

  /** An uninterrupted call is a run in which only its own task takes steps. */
  lemma {:induction false} AloneIsARun(ids: string -> string, w: World, tid: nat, backendOk: bool, n: nat)
    requires tid in w.tasks && Consistent(w.tasks[tid]) && n >= Rank(w.tasks[tid].pc)
    ensures Legal(ids, w, Turns(tid, backendOk, n))
    ensures var r := Finish(w.sh, w.tasks[tid], backendOk);
            Execute(ids, w, Turns(tid, backendOk, n)) == World(r.0, w.tasks[tid := r.1])
    decreases n
  {
    if n == 0 {
      assert w.tasks[tid := w.tasks[tid]] == w.tasks;
    } else {
      var events := Turns(tid, backendOk, n);
      var next := Next(ids, w, events[0]);
      assert events[1..] == Turns(tid, backendOk, n - 1);
      assert Rank(next.tasks[tid].pc) <= n - 1;
      AloneIsARun(ids, next, tid, backendOk, n - 1);
      var r := Finish(w.sh, w.tasks[tid], backendOk);
      assert next.tasks[tid := r.1] == w.tasks[tid := r.1];
    }
  }

  // ---------------------------------------------------------------------
  // One task at a time, one success per claim
  // ---------------------------------------------------------------------

  /** Task `tid` is between the insert into `inflight` and the remove, for uid `u`. */
  predicate Holds(w: World, tid: nat, u: string) {
    tid in w.tasks && Critical(w.tasks[tid].pc) && w.tasks[tid].claim.uid == Some(u)
  }

  ghost predicate AllIdentified(ids: string -> string, w: World) {
    forall tid | tid in w.tasks :: Consistent(w.tasks[tid]) && Identified(ids, w.tasks[tid].claim)
  }

  ghost predicate InflightIsExact(w: World) {
    forall u :: u in w.sh.inflight <==> exists tid :: Holds(w, tid, u)
  }

  ghost predicate Exclusive(w: World) {
    forall a, b, u | Holds(w, a, u) && Holds(w, b, u) :: a == b
  }

  ghost predicate Writing(w: World, u: string) {
    exists tid :: Holds(w, tid, u) && IsWriting(w.tasks[tid].pc)
  }

  /** At most one success for the uid; after one, the claim is bound or about to be. */
  ghost predicate Accounted(ids: string -> string, w: World, u: string) {
    w.sh.made[u] <= 1 && (w.sh.made[u] == 1 ==> BoundAt(w.sh.claims, ids(u)) || Writing(w, u))
  }

  ghost predicate UnmadeBefore(w: World) {
    forall tid, u | Holds(w, tid, u) && w.tasks[tid].pc == Provision :: w.sh.made[u] == 0
  }

  ghost predicate Inv(ids: string -> string, w: World) {
    AllIdentified(ids, w) && InflightIsExact(w) && Exclusive(w) && UnmadeBefore(w)
    && forall u :: Accounted(ids, w, u)
  }

  function Stepped(w: World, tid: nat, backendOk: bool): World
    requires tid in w.tasks && Consistent(w.tasks[tid])
  {
    var r := Step(w.sh, w.tasks[tid], backendOk);
    World(r.0, w.tasks[tid := r.1])
  }

  predicate Acquires(w: World, tid: nat, u: string) {
    tid in w.tasks && w.tasks[tid].pc == Acquire && w.tasks[tid].claim.uid == Some(u) && u !in w.sh.inflight
  }

  predicate Releases(w: World, tid: nat, u: string) {
    Holds(w, tid, u) && w.tasks[tid].pc.Release?
  }

  /** A step changes who holds what only by acquiring or releasing. */
  lemma HoldsAfterStep(w: World, tid: nat, backendOk: bool, a: nat, u: string)
    requires tid in w.tasks && Consistent(w.tasks[tid])
    ensures var n := Stepped(w, tid, backendOk);
            Holds(n, a, u) <==> (Holds(w, a, u) && !(a == tid && Releases(w, tid, u)))
                                || (a == tid && Acquires(w, tid, u))
  {
  }

  lemma InflightAfterStep(w: World, tid: nat, backendOk: bool, u: string)
    requires tid in w.tasks && Consistent(w.tasks[tid])
    ensures var n := Stepped(w, tid, backendOk);
            u in n.sh.inflight <==> (u in w.sh.inflight && !Releases(w, tid, u)) || Acquires(w, tid, u)
  {
  }

  lemma StepKeepsExclusive(w: World, tid: nat, backendOk: bool, a: nat, b: nat, u: string)
    requires tid in w.tasks && Consistent(w.tasks[tid]) && InflightIsExact(w) && Exclusive(w)
    requires Holds(Stepped(w, tid, backendOk), a, u) && Holds(Stepped(w, tid, backendOk), b, u)
    ensures a == b
  {
    HoldsAfterStep(w, tid, backendOk, a, u);
    HoldsAfterStep(w, tid, backendOk, b, u);
    assert Acquires(w, tid, u) ==> !Holds(w, a, u) && !Holds(w, b, u);
  }

  lemma StepKeepsInflight(w: World, tid: nat, backendOk: bool, u: string)
    requires tid in w.tasks && Consistent(w.tasks[tid]) && InflightIsExact(w) && Exclusive(w)
    ensures var n := Stepped(w, tid, backendOk); u in n.sh.inflight <==> exists a :: Holds(n, a, u)
  {
    var n := Stepped(w, tid, backendOk);
    InflightAfterStep(w, tid, backendOk, u);
    forall a ensures Holds(n, a, u) <==> (Holds(w, a, u) && !(a == tid && Releases(w, tid, u)))
                                         || (a == tid && Acquires(w, tid, u)) {
      HoldsAfterStep(w, tid, backendOk, a, u);
    }
    if u in w.sh.inflight {
      var a :| Holds(w, a, u);
      assert Releases(w, tid, u) || Holds(n, a, u);
    } else {
      assert Acquires(w, tid, u) <==> Holds(n, tid, u);
    }
  }

  lemma StepKeepsBound(w: World, tid: nat, backendOk: bool, key: string)
    requires tid in w.tasks && Consistent(w.tasks[tid]) && BoundAt(w.sh.claims, key)
    ensures BoundAt(Stepped(w, tid, backendOk).sh.claims, key)
  {
  }

  lemma MadeAfterStep(w: World, tid: nat, backendOk: bool, u: string)
    requires tid in w.tasks && Consistent(w.tasks[tid])
    ensures var n := Stepped(w, tid, backendOk);
            n.sh.made[u] == w.sh.made[u]
            || (n.sh.made[u] == w.sh.made[u] + 1 && Holds(w, tid, u) && w.tasks[tid].pc == Provision
                && Holds(n, tid, u) && n.tasks[tid].pc == WriteVolume)
  {
  }

  lemma StepKeepsAccount(ids: string -> string, w: World, tid: nat, backendOk: bool, u: string)
    requires Inv(ids, w) && tid in w.tasks
    ensures Accounted(ids, Stepped(w, tid, backendOk), u)
  {
    var n := Stepped(w, tid, backendOk);
    assert Accounted(ids, w, u);
    MadeAfterStep(w, tid, backendOk, u);
    if n.sh.made[u] == w.sh.made[u] {
      if BoundAt(w.sh.claims, ids(u)) {
        StepKeepsBound(w, tid, backendOk, ids(u));
      } else if a :| Holds(w, a, u) && IsWriting(w.tasks[a].pc) {
        HoldsAfterStep(w, tid, backendOk, a, u);
        assert a == tid && w.tasks[tid].pc == WriteClaim ==> BoundAt(n.sh.claims, ids(u));
      }
    }
  }

  lemma StepKeepsUnmade(ids: string -> string, w: World, tid: nat, backendOk: bool, a: nat, u: string)
    requires Inv(ids, w) && tid in w.tasks
    requires Holds(Stepped(w, tid, backendOk), a, u) && Stepped(w, tid, backendOk).tasks[a].pc == Provision
    ensures Stepped(w, tid, backendOk).sh.made[u] == 0
  {
    HoldsAfterStep(w, tid, backendOk, a, u);
    MadeAfterStep(w, tid, backendOk, u);
    assert Accounted(ids, w, u);
    if a == tid {
      assert w.tasks[tid].pc == Check && !BoundAt(w.sh.claims, ids(u));
      assert !Writing(w, u);
    }
  }

  lemma NextKeepsInv(ids: string -> string, w: World, e: Event)
    requires Inv(ids, w) && Allowed(ids, w, e)
    ensures Inv(ids, Next(ids, w, e))
  {
    var n := Next(ids, w, e);
    match e
    case Run(tid, backendOk) =>
      assert n == Stepped(w, tid, backendOk);
      forall a, b, u | Holds(n, a, u) && Holds(n, b, u) ensures a == b {
        StepKeepsExclusive(w, tid, backendOk, a, b, u);
      }
      forall u ensures u in n.sh.inflight <==> exists a :: Holds(n, a, u) {
        StepKeepsInflight(w, tid, backendOk, u);
      }
      forall a, u | Holds(n, a, u) && n.tasks[a].pc == Provision ensures n.sh.made[u] == 0 {
        StepKeepsUnmade(ids, w, tid, backendOk, a, u);
      }
      forall u ensures Accounted(ids, n, u) { StepKeepsAccount(ids, w, tid, backendOk, u); }
    case _ =>
      assert forall tid, u :: Holds(n, tid, u) <==> Holds(w, tid, u);
      forall u ensures Accounted(ids, n, u) {
        assert Accounted(ids, w, u);
        if a :| Holds(w, a, u) && IsWriting(w.tasks[a].pc) { assert Holds(n, a, u); }
      }
  }

  lemma {:induction false} RunsKeepInv(ids: string -> string, w: World, events: seq<Event>)
    requires Inv(ids, w) && Legal(ids, w, events)
    ensures Inv(ids, Execute(ids, w, events))
    decreases |events|
  {
    if events != [] {
      NextKeepsInv(ids, w, events[0]);
      RunsKeepInv(ids, Next(ids, w, events[0]), events[1..]);
    }
  }

  /** In every run of any number of tasks: at most one task per uid is between insert and remove, `inflight` is
      exactly the uids of those tasks, and the backend succeeds at most once per uid. */
  lemma RunsProvisionOnce(ids: string -> string, claims: map<string, Claim>, volumes: map<string, Volume>,
                          events: seq<Event>)
    requires Legal(ids, Initial(claims, volumes), events)
    ensures var w := Execute(ids, Initial(claims, volumes), events);
            && Exclusive(w) && InflightIsExact(w) && (forall u :: w.sh.made[u] <= 1)
            && ((forall tid | tid in w.tasks :: !Critical(w.tasks[tid].pc)) ==> w.sh.inflight == {})
  {
    RunsKeepInv(ids, Initial(claims, volumes), events);
    var w := Execute(ids, Initial(claims, volumes), events);
    forall u ensures w.sh.made[u] <= 1 { assert Accounted(ids, w, u); }
  }

  // ---------------------------------------------------------------------
  // Bindings
  // ---------------------------------------------------------------------

  function VolumeAt(claims: map<string, Claim>, key: string): Option<string> {
    if BoundAt(claims, key) then claims[key].spec.value.volume else None
  }

  /** A stored binding is never lost, and changes exactly when a task that found the claim unbound writes it after
      another volume was bound in between. */
  lemma BindingChangesIff(ids: string -> string, w: World, e: Event, key: string)
    requires Inv(ids, w) && Allowed(ids, w, e) && BoundAt(w.sh.claims, key)
    ensures BoundAt(Next(ids, w, e).sh.claims, key)
    ensures VolumeAt(Next(ids, w, e).sh.claims, key) != VolumeAt(w.sh.claims, key) <==>
            e.Run? && w.tasks[e.tid].pc == WriteClaim && StoreKey(w.tasks[e.tid].claim) == key
            && VolumeAt(w.sh.claims, key) != Some(VolumeName(w.tasks[e.tid].claim))
  {
    if e.Run? { StepKeepsBound(w, e.tid, e.backendOk, key); }
  }

  /** The API binds a claim that a provisioning task is about to write: the write replaces the binding. */
  lemma LateWriteReplacesBinding(ids: string -> string, w: World, tid: nat, c: Claim, backendOk: bool)
    requires Inv(ids, w) && tid in w.tasks && w.tasks[tid].pc == WriteClaim
    requires HasVolume(c) && c.spec.value.volume != Some(VolumeName(w.tasks[tid].claim))
    requires !BoundAt(w.sh.claims, StoreKey(w.tasks[tid].claim))
    ensures var key := StoreKey(w.tasks[tid].claim);
            var store, write := Store(key, c), Run(tid, backendOk);
            && Allowed(ids, w, store) && Allowed(ids, Next(ids, w, store), write)
            && VolumeAt(Next(ids, w, store).sh.claims, key) == c.spec.value.volume
            && VolumeAt(Next(ids, Next(ids, w, store), write).sh.claims, key)
               == Some(VolumeName(w.tasks[tid].claim))
  {
    var key := StoreKey(w.tasks[tid].claim);
    NextKeepsInv(ids, w, Store(key, c));
    BindingChangesIff(ids, Next(ids, w, Store(key, c)), Run(tid, backendOk), key);
  }

  /** The volume and the claim that any task writes, between any other steps. */
  lemma WritesInAnyRun(ids: string -> string, w: World, tid: nat, backendOk: bool)
    requires Inv(ids, w) && tid in w.tasks && IsWriting(w.tasks[tid].pc)
    ensures var c := w.tasks[tid].claim;
            && c.spec.Some? && c.spec.value.storageClass in {Some("standard"), Some("hostpath")}
            && var n := Next(ids, w, Run(tid, backendOk)).sh;
            var spec := c.spec.value;
            var volume := "pvc-" + NamespaceText(c) + "--" + NameOr(c, "unknown");
            var key := "PersistentVolumeClaim/" + NamespaceText(c) + "/" + NameOr(c, "<unnamed>");
            var provisioner := if spec.storageClass == Some("standard") then "z8s.io/loop" else "z8s.io/hostpath";
            if w.tasks[tid].pc == WriteVolume
            then n.claims == w.sh.claims && n.volumes ==
                   w.sh.volumes[volume := Volume(volume, provisioner, c.ns, c.name, spec.request, "Bound")]
            else n.volumes == w.sh.volumes && n.claims ==
                   w.sh.claims[key := Claim(c.ns, c.name, c.uid,
                                            Some(Spec(spec.storageClass, Some(volume), spec.request)), Some("Bound"))]
  {
    ClassesDiffer();
  }
}
