/** What a claim bound by the dispatcher names, and when volume names of different claims meet. */
module VolumeBinding {
  import opened Prelude
  import opened Provisioning

  // ---------------------------------------------------------------------
  // Volume names
  // ---------------------------------------------------------------------

  /** A namespace without "--" that does not end in "-". */
  predicate Plain(ns: string) {
    (forall i | 0 <= i < |ns| - 1 :: !(ns[i] == '-' && ns[i + 1] == '-')) && (ns == "" || ns[|ns| - 1] != '-')
  }

  /** Two namespaces can meet in a volume name exactly when one, followed by the separator, begins the other. */
  lemma NamesMeetIff(ns1: string, ns2: string)
    ensures (exists n1, n2 :: NameText(ns1, n1) == NameText(ns2, n2)) <==>
            ns1 + "--" <= ns2 + "--" || ns2 + "--" <= ns1 + "--"
  {
    forall n1, n2 | NameText(ns1, n1) == NameText(ns2, n2)
      ensures ns1 + "--" <= ns2 + "--" || ns2 + "--" <= ns1 + "--"
    {
      NamesShareText(ns1, n1, ns2, n2);
    }
    if ns1 + "--" <= ns2 + "--" {
      NameFor(ns1, ns2);
    } else if ns2 + "--" <= ns1 + "--" {
      NameFor(ns2, ns1);
    }
  }

  lemma NamesShareText(ns1: string, n1: string, ns2: string, n2: string)
    requires NameText(ns1, n1) == NameText(ns2, n2)
    ensures ns1 + "--" + n1 == ns2 + "--" + n2
    ensures ns1 + "--" <= ns2 + "--" || ns2 + "--" <= ns1 + "--"
  {
    var t1, t2 := ns1 + "--", ns2 + "--";
    assert NameText(ns1, n1) == "pvc-" + (t1 + n1) && NameText(ns2, n2) == "pvc-" + (t2 + n2);
    assert ("pvc-" + (t1 + n1))[4..] == t1 + n1 && ("pvc-" + (t2 + n2))[4..] == t2 + n2;
    var all := t1 + n1;
    assert all[..|t1|] == t1 && all[..|t2|] == t2;
  }

  lemma NameFor(ns1: string, ns2: string)
    requires ns1 + "--" <= ns2 + "--"
    ensures var rest := (ns2 + "--")[|ns1| + 2..]; NameText(ns1, rest) == NameText(ns2, "")
  {
    var rest := (ns2 + "--")[|ns1| + 2..];
    assert ns1 + "--" + rest == ns2 + "--";
    assert NameText(ns1, rest) == "pvc-" + (ns1 + "--" + rest) && NameText(ns2, "") == "pvc-" + (ns2 + "--");
  }

  lemma LongerIsNotPlain(ns1: string, ns2: string)
    requires |ns1| < |ns2| && ns1 + "--" <= ns2 + "--"
    ensures !Plain(ns2)
  {
    var t1, t2 := ns1 + "--", ns2 + "--";
    assert forall i | 0 <= i < |t1| :: t1[i] == t2[i];
    assert t1[|ns1|] == '-' && t1[|ns1| + 1] == '-';
    assert ns2[|ns1|] == t2[|ns1|];
    assert |ns2| > |ns1| + 1 ==> ns2[|ns1| + 1] == t2[|ns1| + 1];
  }

  lemma PlainPrefix(ns1: string, ns2: string)
    requires Plain(ns2) && ns1 + "--" <= ns2 + "--"
    ensures ns1 == ns2
  {
    if |ns1| < |ns2| {
      LongerIsNotPlain(ns1, ns2);
    } else {
      assert (ns1 + "--")[..|ns1|] == (ns2 + "--")[..|ns1|];
    }
  }

  /** Plain namespaces keep volume names of different claims apart. */
  lemma PlainNamesAreInjective(ns1: string, n1: string, ns2: string, n2: string)
    requires Plain(ns1) && Plain(ns2) && NameText(ns1, n1) == NameText(ns2, n2)
    ensures ns1 == ns2 && n1 == n2
  {
    NamesShareText(ns1, n1, ns2, n2);
    if ns1 + "--" <= ns2 + "--" {
      PlainPrefix(ns1, ns2);
    } else {
      PlainPrefix(ns2, ns1);
    }
    assert (ns1 + "--" + n1)[|ns1| + 2..] == n1 && (ns2 + "--" + n2)[|ns2| + 2..] == n2;
  }

  // ---------------------------------------------------------------------
  // Bound claims name a volume that points back
  // ---------------------------------------------------------------------

  /** The claim a volume points to. */
  function BackKey(v: Volume): string {
    KeyOf(UnwrapOr(v.claimNs, "default"), UnwrapOr(v.claimName, "<unnamed>"))
  }

  /** Claims with the same volume name are the same claim. */
  ghost predicate Apart(pool: set<Claim>) {
    forall c, d | c in pool && d in pool && c.uid.Some? && d.uid.Some? && VolumeName(c) == VolumeName(d) ::
      StoreKey(c) == StoreKey(d)
  }

  lemma PlainPoolIsApart(pool: set<Claim>)
    requires forall c | c in pool && c.uid.Some? :: c.name.Some? && Plain(UnwrapOr(c.ns, "default"))
    ensures Apart(pool)
  {
    forall c, d | c in pool && d in pool && c.uid.Some? && d.uid.Some? && VolumeName(c) == VolumeName(d)
      ensures StoreKey(c) == StoreKey(d)
    {
      PlainNamesAreInjective(UnwrapOr(c.ns, "default"), c.name.value, UnwrapOr(d.ns, "default"), d.name.value);
    }
  }

  /** The volume of that name is stored and points to the claim. */
  predicate VolumeOf(w: World, tid: nat, key: string) {
    tid in w.tasks && w.tasks[tid].claim.uid.Some? && StoreKey(w.tasks[tid].claim) == key
    && VolumeName(w.tasks[tid].claim) in w.sh.volumes
    && BackKey(w.sh.volumes[VolumeName(w.tasks[tid].claim)]) == key
  }

  predicate LinkedBy(w: World, tid: nat, key: string) {
    VolumeOf(w, tid, key) && BoundAt(w.sh.claims, key)
    && w.sh.claims[key].spec.value.volume == Some(VolumeName(w.tasks[tid].claim))
  }

  /** The stored claim names a stored volume that points back to it. */
  predicate PointsBack(sh: Shared, key: string) {
    BoundAt(sh.claims, key)
    && var v := sh.claims[key].spec.value.volume.value; v in sh.volumes && BackKey(sh.volumes[v]) == key
  }

  ghost predicate Linked(w: World, key: string) {
    exists tid :: LinkedBy(w, tid, key)
  }

  ghost predicate AllLinked(ids: string -> string, w: World) {
    && (forall tid, u | Holds(w, tid, u) && w.tasks[tid].pc == WriteClaim :: VolumeOf(w, tid, ids(u)))
    && (forall u | w.sh.made[u] == 1 && !Writing(w, u) :: Linked(w, ids(u)))
  }

  ghost predicate FromPool(pool: set<Claim>, w: World) {
    forall tid | tid in w.tasks :: w.tasks[tid].claim in pool
  }

  predicate Spawns(pool: set<Claim>, events: seq<Event>) {
    forall i | 0 <= i < |events| :: events[i].Spawn? ==> events[i].claim in pool
  }

  lemma VolumeStays(ids: string -> string, pool: set<Claim>, w: World, e: Event, tid: nat, key: string)
    requires Inv(ids, w) && Allowed(ids, w, e) && FromPool(pool, w) && Apart(pool) && VolumeOf(w, tid, key)
    ensures VolumeOf(Next(ids, w, e), tid, key)
  {
    var c := w.tasks[tid].claim;
    if e.Run? && w.tasks[e.tid].pc == WriteVolume {
      var d := w.tasks[e.tid].claim;
      assert VolumeName(d) == VolumeName(c) ==> StoreKey(d) == key;
    }
  }

  lemma LinkStays(ids: string -> string, pool: set<Claim>, w: World, e: Event, key: string)
    requires Inv(ids, w) && AllLinked(ids, w) && Allowed(ids, w, e) && FromPool(pool, w) && Apart(pool)
    requires Linked(w, key)
    ensures Linked(Next(ids, w, e), key)
  {
    var n := Next(ids, w, e);
    var tid :| LinkedBy(w, tid, key);
    VolumeStays(ids, pool, w, e, tid, key);
    if e.Run? && w.tasks[e.tid].pc == WriteClaim && StoreKey(w.tasks[e.tid].claim) == key {
      var u := w.tasks[e.tid].claim.uid.value;
      assert Holds(w, e.tid, u);
      VolumeStays(ids, pool, w, e, e.tid, key);
      assert LinkedBy(n, e.tid, key);
    } else {
      assert LinkedBy(n, tid, key);
    }
  }

  /** The claim is written only after its volume. */
  lemma WriteClaimLinks(ids: string -> string, w: World, tid: nat, backendOk: bool, u: string)
    requires Inv(ids, w) && AllLinked(ids, w) && Holds(w, tid, u) && w.tasks[tid].pc == WriteClaim
    ensures Linked(Stepped(w, tid, backendOk), ids(u))
  {
    assert VolumeOf(w, tid, ids(u));
    assert LinkedBy(Stepped(w, tid, backendOk), tid, ids(u));
  }

  lemma StillWriting(w: World, e: Event, ids: string -> string, u: string)
    requires Inv(ids, w) && Allowed(ids, w, e) && Writing(w, u) && !Writing(Next(ids, w, e), u)
    ensures e.Run? && Holds(w, e.tid, u) && w.tasks[e.tid].pc == WriteClaim
  {
    var a :| Holds(w, a, u) && IsWriting(w.tasks[a].pc);
    var n := Next(ids, w, e);
    assert !(Holds(n, a, u) && IsWriting(n.tasks[a].pc));
  }

  lemma NextKeepsLinks(ids: string -> string, pool: set<Claim>, w: World, e: Event)
    requires Inv(ids, w) && AllLinked(ids, w) && Allowed(ids, w, e) && FromPool(pool, w) && Apart(pool)
    ensures AllLinked(ids, Next(ids, w, e))
  {
    var n := Next(ids, w, e);
    forall tid, u | Holds(n, tid, u) && n.tasks[tid].pc == WriteClaim ensures VolumeOf(n, tid, ids(u)) {
      if w.tasks[tid].pc == WriteClaim {
        assert Holds(w, tid, u);
        VolumeStays(ids, pool, w, e, tid, ids(u));
      }
    }
    forall u | n.sh.made[u] == 1 && !Writing(n, u) ensures Linked(n, ids(u)) {
      MadeUnlessWriting(ids, w, e, u);
      if Writing(w, u) {
        StillWriting(w, e, ids, u);
        WriteClaimLinks(ids, w, e.tid, e.backendOk, u);
      } else {
        LinkStays(ids, pool, w, e, ids(u));
      }
    }
  }

  lemma MadeUnlessWriting(ids: string -> string, w: World, e: Event, u: string)
    requires Inv(ids, w) && Allowed(ids, w, e) && !Writing(Next(ids, w, e), u)
    ensures Next(ids, w, e).sh.made[u] == w.sh.made[u]
  {
    if e.Run? { MadeAfterStep(w, e.tid, e.backendOk, u); }
  }

  lemma {:induction false} RunsKeepLinks(ids: string -> string, pool: set<Claim>, w: World, events: seq<Event>)
    requires Inv(ids, w) && AllLinked(ids, w) && FromPool(pool, w) && Apart(pool)
    requires Legal(ids, w, events) && Spawns(pool, events)
    ensures Inv(ids, Execute(ids, w, events)) && AllLinked(ids, Execute(ids, w, events))
    decreases |events|
  {
    if events != [] {
      assert events[0].Spawn? ==> events[0].claim in pool;
      NextKeepsInv(ids, w, events[0]);
      NextKeepsLinks(ids, pool, w, events[0]);
      RunsKeepLinks(ids, pool, Next(ids, w, events[0]), events[1..]);
    }
  }

  /** In every run whose claims have volume names apart: once the backend has succeeded for a uid and no task
      is between that success and the write of the claim, the stored claim names a stored volume that points
      back to it. */
  lemma BoundClaimsPointBack(ids: string -> string, pool: set<Claim>, claims: map<string, Claim>,
                             volumes: map<string, Volume>, events: seq<Event>, u: string)
    requires Apart(pool) && Legal(ids, Initial(claims, volumes), events) && Spawns(pool, events)
    ensures var w := Execute(ids, Initial(claims, volumes), events);
            w.sh.made[u] > 0 && !Writing(w, u) ==> PointsBack(w.sh, ids(u))
  {
    RunsKeepLinks(ids, pool, Initial(claims, volumes), events);
    var w := Execute(ids, Initial(claims, volumes), events);
    assert Accounted(ids, w, u);
    if w.sh.made[u] > 0 && !Writing(w, u) {
      var tid :| LinkedBy(w, tid, ids(u));
    }
  }

  // ---------------------------------------------------------------------
  // Where the conditions are needed
  // ---------------------------------------------------------------------

  /** A second call for the same claim provisions again exactly when the claim has no name. */
  lemma SecondCallProvisionsIff(sh: Shared, c: Claim)
    requires Provisions(sh, c, true)
    ensures Provisions(Finish(sh, Task(c, Begin), true).0, c, true) <==> c.name.None?
  {
    AloneOutcome(sh, c, true);
    if c.name.None? {
      var ns := UnwrapOr(c.ns, "default");
      assert |KeyOf(ns, "<unnamed>")| == |KeyOf(ns, "unknown")| + 2;
    }
  }

  /** Two claims that meet in a volume name: the first is left with a volume that points to the second. */
  lemma CollisionBreaksTheLink(sh: Shared, c: Claim, d: Claim)
    requires Provisions(sh, c, true) && Provisions(sh, d, true) && c.name.Some? && d.name.Some?
    requires VolumeName(c) == VolumeName(d) && StoreKey(c) != StoreKey(d)
    ensures var first := Finish(sh, Task(c, Begin), true).0;
            var both := Finish(first, Task(d, Begin), true).0;
            PointsBack(first, StoreKey(c)) && !PointsBack(both, StoreKey(c)) && PointsBack(both, StoreKey(d))
  {
    AloneOutcome(sh, c, true);
    var first := Finish(sh, Task(c, Begin), true).0;
    AloneOutcome(first, d, true);
  }

  /** Claims "b--c" in "a" and "c" in "a--b" meet. */
  lemma NamesThatMeet()
    ensures NameText("a", "b--c") == NameText("a--b", "c") && KeyOf("a", "b--c") != KeyOf("a--b", "c")
  {
    assert KeyOf("a", "b--c")[23] == '/' && KeyOf("a--b", "c")[23] == '-';
  }
}
