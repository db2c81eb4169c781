/** What holds over every run of the pod lifecycle steps, however the steps of starts, stops, exit handling and
    timers interleave; and what an uninterrupted start, stop or pass over the reaped processes does. */
module PodHistory {
  import opened Prelude
  import opened PodLifecycle

  // ---------------------------------------------------------------------
  // Start and stop
  // ---------------------------------------------------------------------

  lemma IdsMatch(name: string, containers: seq<string>, cid: string)
    requires cid in ContainerIds(name, containers)
    ensures Matches(name, cid)
  {
  }

  lemma {:induction false} RemovedPlaceholders(running: map<string, Option<nat>>, name: string, containers: seq<string>)
    requires !AnyMatches(running, name)
    ensures Removed(Placed(running, ContainerIds(name, containers)), ContainerIds(name, containers)) == running
  {
    var cids := ContainerIds(name, containers);
    forall cid | cid in cids ensures cid !in running { IdsMatch(name, containers, cid); }
  }

  /** A start that fails leaves the running map as it found it exactly when it does not fail in preparing an
      image. */
  lemma FailedStartRestoresIff(running: map<string, Option<nat>>, name: string, containers: seq<string>,
                               cgroupOk: bool, attempts: seq<Attempt>)
    requires |attempts| == |containers| && !AnyMatches(running, name) && !StartOk(false, cgroupOk, attempts)
    ensures StartedRunning(running, ContainerIds(name, containers), false, cgroupOk, attempts) == running <==>
            !(cgroupOk && FirstFailure(attempts) == Some(PrepareFailed))
  {
    RemovedPlaceholders(running, name, containers);
    if cgroupOk && FirstFailure(attempts) == Some(PrepareFailed) {
      FailedImageLooksRunning(running, name, containers, attempts);
    }
  }

  /** After a failed image every later start reports success and starts nothing, although the pod has no
      process. */
  lemma {:induction false} FailedImageLooksRunning(running: map<string, Option<nat>>, name: string,
                                                   containers: seq<string>,
                                                   attempts: seq<Attempt>)
    requires |attempts| == |containers| && !AnyMatches(running, name)
    requires FirstFailure(attempts) == Some(PrepareFailed)
    ensures var left := StartedRunning(running, ContainerIds(name, containers), false, true, attempts);
            AnyMatches(left, name) && forall cid | cid in left && Matches(name, cid) :: left[cid] == None
  {
    var cids := ContainerIds(name, containers);
    var left := Placed(running, cids);
    assert cids[0] in left;
    IdsMatch(name, containers, cids[0]);
  }

  lemma {:induction false} CommittedShape(running: map<string, Option<nat>>, started: seq<(string, nat)>)
    ensures Committed(running, started).Keys == running.Keys + (set s | s in started :: s.0)
    ensures forall cid | cid in running && cid !in (set s | s in started :: s.0) ::
              Committed(running, started)[cid] == running[cid]
  {
    if started != [] {
      var front, last := started[..|started| - 1], started[|started| - 1];
      CommittedShape(running, front);
      assert started == front + [last];
    }
  }

  lemma {:induction false} CommittedPids(running: map<string, Option<nat>>, started: seq<(string, nat)>, i: nat)
    requires i < |started| && forall j | i < j < |started| :: started[j].0 != started[i].0
    ensures started[i].0 in Committed(running, started)
    ensures Committed(running, started)[started[i].0] == Some(started[i].1)
    decreases |started|
  {
    if i < |started| - 1 {
      CommittedPids(running, started[..|started| - 1], i);
    }
  }

  /** A start that is not taken for a duplicate and succeeds tracks every container's process; of containers with
      the same name, the last. */
  lemma {:induction false} StartTracksProcesses(running: map<string, Option<nat>>, name: string,
                                                containers: seq<string>,
                                                attempts: seq<Attempt>, i: nat)
    requires |attempts| == |containers| && FirstFailure(attempts).None?
    requires i < |containers| && forall j | i < j < |containers| :: containers[j] != containers[i]
    ensures attempts[i].Spawned?
    ensures var after := StartedRunning(running, ContainerIds(name, containers), false, true, attempts);
            var cid := ContainerId(name, containers[i]);
            cid in after && after[cid] == Some(attempts[i].pid)
  {
    var cids := ContainerIds(name, containers);
    NoFailure(attempts);
    forall j | i < j < |containers| ensures cids[j] != cids[i] {
      assert cids[j][|name| + 1..] == containers[j] && cids[i][|name| + 1..] == containers[i];
    }
    CommittedPids(Placed(running, cids), StartedWith(cids, attempts), i);
  }

  predicate DistinctNames(containers: seq<string>) {
    forall i, j | 0 <= i < j < |containers| :: containers[i] != containers[j]
  }

  /** Container i of the pod is tracked under the process its attempt spawned. */
  predicate TrackedAsSpawned(running: map<string, Option<nat>>, name: string, containers: seq<string>,
                             attempts: seq<Attempt>, i: nat)
    requires i < |containers| && i < |attempts|
  {
    var cid := ContainerId(name, containers[i]);
    attempts[i].Spawned? && cid in running && running[cid] == Some(attempts[i].pid)
  }

  /** No tracked container has this process. */
  predicate Unused(running: map<string, Option<nat>>, attempt: Attempt) {
    attempt.Spawned? ==> forall cid | cid in running :: running[cid] != Some(attempt.pid)
  }

  /** A start that reports success has put every container under its new process exactly when nothing tracked matched
      the pod's name before (or there is no container): otherwise it was taken for a duplicate and did nothing. */
  lemma {:induction false} StartTracksIff(running: map<string, Option<nat>>, name: string, containers: seq<string>,
                                          cgroupOk: bool, attempts: seq<Attempt>)
    requires |attempts| == |containers| && DistinctNames(containers)
    requires forall i | 0 <= i < |attempts| :: Unused(running, attempts[i])
    requires StartOk(AnyMatches(running, name), cgroupOk, attempts)
    ensures var after := StartedRunning(running, ContainerIds(name, containers), AnyMatches(running, name), cgroupOk,
                                        attempts);
            (forall i | 0 <= i < |containers| :: TrackedAsSpawned(after, name, containers, attempts, i)) <==>
            !AnyMatches(running, name) || containers == []
  {
    if AnyMatches(running, name) {
      var after := StartedRunning(running, ContainerIds(name, containers), true, cgroupOk, attempts);
      if containers != [] {
        assert after == running && Unused(running, attempts[0]);
        assert !TrackedAsSpawned(after, name, containers, attempts, 0);
      }
    } else {
      var after := StartedRunning(running, ContainerIds(name, containers), false, true, attempts);
      forall i | 0 <= i < |containers| ensures TrackedAsSpawned(after, name, containers, attempts, i) {
        StartTracksProcesses(running, name, containers, attempts, i);
      }
    }
  }

  /** After an exit that restarts the pod, a start that reports success brings the container back exactly when no other
      tracked id matches the pod's name. */
  lemma {:induction false} RestartBringsBackIff(w: World, exit: Exit, uid: string, containers: seq<string>, k: nat,
                                                cgroupOk: bool, attempts: seq<Attempt>)
    requires uid in w.pods && |attempts| == |containers| && DistinctNames(containers)
    requires k < |containers| && exit.cid == ContainerId(w.pods[uid].name, containers[k])
    requires StartOk(AnyMatches(Handled(w, exit, Some(uid), true).running, w.pods[uid].name), cgroupOk, attempts)
    ensures var name, running := w.pods[uid].name, Handled(w, exit, Some(uid), true).running;
            var after := StartedRunning(running, ContainerIds(name, containers), AnyMatches(running, name), cgroupOk,
                                        attempts);
            && (exit.cid in after <==> forall cid | cid in w.running && cid != exit.cid :: !Matches(name, cid))
            && (exit.cid in after ==> attempts[k].Spawned? && after[exit.cid] == Some(attempts[k].pid))
  {
    var name, running := w.pods[uid].name, Handled(w, exit, Some(uid), true).running;
    assert running == w.running - {exit.cid};
    if !AnyMatches(running, name) {
      StartTracksProcesses(running, name, containers, attempts, k);
    }
  }

  /** Two containers, one of which exits and is to be restarted: the other makes the start a duplicate, so it reports
      success, sets Running, and the first container stays untracked. */
  lemma SiblingBlocksRestart(w: World, uid: string, a: string, b: string, pidA: nat, pidB: nat, code: int,
                             cgroupOk: bool, attempts: seq<Attempt>)
    requires uid in w.pods && a != b && |attempts| == 2
    requires w.running == map[ContainerId(w.pods[uid].name, a) := Some(pidA),
                              ContainerId(w.pods[uid].name, b) := Some(pidB)]
    ensures var name := w.pods[uid].name;
            var running := Handled(w, Exit(ContainerId(name, a), pidA, code), Some(uid), true).running;
            var after := StartedRunning(running, ContainerIds(name, [a, b]), AnyMatches(running, name), cgroupOk,
                                        attempts);
            && StartOk(AnyMatches(running, name), cgroupOk, attempts)
            && ContainerId(name, a) !in after && ContainerId(name, b) in after
  {
    var name := w.pods[uid].name;
    var idA, idB := ContainerId(name, a), ContainerId(name, b);
    assert idA[|name| + 1..] == a && idB[|name| + 1..] == b;
    var running := Handled(w, Exit(idA, pidA, code), Some(uid), true).running;
    assert idB in running && Matches(name, idB);
    RestartBringsBackIff(w, Exit(idA, pidA, code), uid, [a, b], 0, cgroupOk, attempts);
  }

  /** A stop takes away exactly the entries a start has made. */
  lemma {:induction false} StopUndoesStart(running: map<string, Option<nat>>, name: string, containers: seq<string>,
                                           attempts: seq<Attempt>)
    requires |attempts| == |containers| && !AnyMatches(running, name) && FirstFailure(attempts).None?
    ensures var cids := ContainerIds(name, containers);
            Removed(StartedRunning(running, cids, false, true, attempts), cids) == running
  {
    var cids := ContainerIds(name, containers);
    NoFailure(attempts);
    var started := StartedWith(cids, attempts);
    var placed := Placed(running, cids);
    CommittedShape(placed, started);
    assert forall i | 0 <= i < |cids| :: started[i].0 == cids[i];
    assert (set s | s in started :: s.0) == (set c | c in cids) by {
      forall c | c in cids ensures c in set s | s in started :: s.0 {
        var i :| 0 <= i < |cids| && cids[i] == c;
        assert started[i] in started;
      }
    }
    RemovedPlaceholders(running, name, containers);
    assert Removed(Committed(placed, started), cids) == Removed(placed, cids);
  }

  // ---------------------------------------------------------------------
  // Which pod an exit is attributed to
  // ---------------------------------------------------------------------

  /** One name, followed by "-", begins the other. */
  predicate NamesMeet(p: string, q: string) {
    q + "-" <= p + "-" || p + "-" <= q + "-"
  }

  lemma NamesMeetIff(p: string, q: string)
    ensures (exists c :: Matches(q, ContainerId(p, c))) <==> NamesMeet(p, q)
  {
    forall c | Matches(q, ContainerId(p, c)) ensures NamesMeet(p, q) {
      var cid := ContainerId(p, c);
      assert cid[..|p| + 1] == p + "-" && cid[..|q| + 1] == q + "-";
    }
    if q + "-" <= p + "-" {
      assert Matches(q, ContainerId(p, ""));
    } else if p + "-" <= q + "-" {
      var rest := (q + "-")[|p| + 1..];
      assert ContainerId(p, rest) == q + "-";
      assert Matches(q, ContainerId(p, rest));
    }
  }

  /** Exits of a pod's containers, whatever their names, are attributed to that pod exactly when no other pod's
      name meets its name. */
  lemma OwnerIsItsPodIff(pods: map<string, Pod>, uid: string)
    requires uid in pods
    ensures (forall c, owner | IsOwner(pods, ContainerId(pods[uid].name, c), owner) :: owner == Some(uid)) <==>
            forall other | other in pods && other != uid :: !NamesMeet(pods[uid].name, pods[other].name)
  {
    var name := pods[uid].name;
    forall other | other in pods && other != uid && NamesMeet(name, pods[other].name)
      ensures exists c, owner :: IsOwner(pods, ContainerId(name, c), owner) && owner != Some(uid)
    {
      NamesMeetIff(name, pods[other].name);
      var c :| Matches(pods[other].name, ContainerId(name, c));
      assert IsOwner(pods, ContainerId(name, c), Some(other));
    }
    forall c, owner | IsOwner(pods, ContainerId(name, c), owner)
                      && forall other | other in pods && other != uid :: !NamesMeet(name, pods[other].name)
      ensures owner == Some(uid)
    {
      assert Matches(name, ContainerId(name, c));
      if owner.Some? { NamesMeetIff(name, pods[owner.value].name); }
    }
  }

  // ---------------------------------------------------------------------
  // Runs
  // ---------------------------------------------------------------------

  lemma {:induction false} LegalPrefix(w: World, events: seq<Event>, k: nat)
    requires Legal(w, events) && k <= |events|
    ensures Legal(w, events[..k])
    decreases |events|
  {
    if k == |events| {
      assert events[..k] == events;
    } else {
      var front := events[..|events| - 1];
      LegalPrefix(w, front, k);
      assert front[..k] == events[..k];
    }
  }

  /** The step after the first k. */
  lemma StepAt(w: World, events: seq<Event>, k: nat)
    requires Legal(w, events) && k < |events|
    ensures Legal(w, events[..k]) && Legal(w, events[..k + 1])
    ensures Allowed(Execute(w, events[..k]), events[k])
    ensures Execute(w, events[..k + 1]) == Next(Execute(w, events[..k]), events[k])
  {
    LegalPrefix(w, events, k + 1);
    LegalPrefix(w, events, k);
    assert events[..k + 1][..k] == events[..k];
  }

  predicate IsFireOf(e: Event, uid: string) {
    e.Fire? && e.timer.uid == uid
  }

  /** A handled exit that restarts pod `uid`. */
  predicate IsRestartOf(e: Event, uid: string) {
    e.Handle? && e.owner == Some(uid) && e.restart
  }

  function Fires(events: seq<Event>, uid: string): nat {
    if events == [] then 0
    else Fires(events[..|events| - 1], uid) + if IsFireOf(events[|events| - 1], uid) then 1 else 0
  }

  function PermittedExits(events: seq<Event>, uid: string): nat {
    if events == [] then 0
    else PermittedExits(events[..|events| - 1], uid) + if IsRestartOf(events[|events| - 1], uid) then 1 else 0
  }

  function TimersIn(timers: seq<Timer>, n: nat, uid: string): nat
    requires n <= |timers|
  {
    if n == 0 then 0 else TimersIn(timers, n - 1, uid) + if timers[n - 1].uid == uid then 1 else 0
  }

  function TimersFor(timers: seq<Timer>, uid: string): nat {
    TimersIn(timers, |timers|, uid)
  }

  lemma {:induction false} SamePrefixCounts(s: seq<Timer>, t: seq<Timer>, n: nat, uid: string)
    requires n <= |s| && n <= |t| && forall k | 0 <= k < n :: s[k] == t[k]
    ensures TimersIn(s, n, uid) == TimersIn(t, n, uid)
  {
    if n > 0 { SamePrefixCounts(s, t, n - 1, uid); }
  }

  lemma {:induction false} RemovedCounts(s: seq<Timer>, t: seq<Timer>, i: nat, n: nat, uid: string)
    requires i < n <= |s| == |t| + 1
    requires (forall k | 0 <= k < i :: t[k] == s[k]) && forall k | i < k < |s| :: t[k - 1] == s[k]
    ensures TimersIn(s, n, uid) == TimersIn(t, n - 1, uid) + if s[i].uid == uid then 1 else 0
    decreases n
  {
    if n == i + 1 {
      SamePrefixCounts(s, t, i, uid);
    } else {
      RemovedCounts(s, t, i, n - 1, uid);
      assert t[n - 2] == s[n - 1];
    }
  }

  lemma TimersForRemoved(s: seq<Timer>, i: nat, uid: string)
    requires i < |s|
    ensures TimersFor(s, uid) == TimersFor(s[..i] + s[i + 1..], uid) + if s[i].uid == uid then 1 else 0
  {
    RemovedCounts(s, s[..i] + s[i + 1..], i, |s|, uid);
  }

  lemma TimersForAdded(s: seq<Timer>, t: Timer, uid: string)
    ensures TimersFor(s + [t], uid) == TimersFor(s, uid) + if t.uid == uid then 1 else 0
  {
    SamePrefixCounts(s, s + [t], |s|, uid);
  }

  lemma TimersStep(w: World, e: Event, uid: string)
    requires Allowed(w, e)
    ensures (if IsFireOf(e, uid) then 1 else 0) + TimersFor(Next(w, e).timers, uid)
            == TimersFor(w.timers, uid) + if IsRestartOf(e, uid) then 1 else 0
  {
    if e.Fire? {
      TimersForRemoved(w.timers, e.index, uid);
    } else if e.Handle? && e.restart && e.owner.Some? {
      var timer := Timer(e.owner.value, Delay(CountOf(w.counts, e.exit.cid) + 1));
      TimersForAdded(w.timers, timer, uid);
    }
  }

  /** Returns to Pending and waiting timers of a pod add up to the exits that were allowed to restart it. */
  lemma {:induction false} RestartsAreConserved(w: World, events: seq<Event>, uid: string)
    requires Legal(w, events)
    ensures Fires(events, uid) + TimersFor(Execute(w, events).timers, uid)
            == TimersFor(w.timers, uid) + PermittedExits(events, uid)
    decreases |events|
  {
    if events != [] {
      var front, last := events[..|events| - 1], events[|events| - 1];
      RestartsAreConserved(w, front, uid);
      TimersStep(Execute(w, front), last, uid);
    }
  }

  /** Names and policies of stored pods never change; pods are only added. */
  predicate Extends(a: map<string, Pod>, b: map<string, Pod>) {
    forall uid | uid in a :: uid in b && b[uid].name == a[uid].name && b[uid].policy == a[uid].policy
  }

  lemma StepExtends(w: World, e: Event)
    requires Allowed(w, e)
    ensures Extends(w.pods, Next(w, e).pods)
  {
  }

  lemma {:induction false} RunExtends(w: World, events: seq<Event>, k: nat)
    requires Legal(w, events) && k <= |events|
    ensures Legal(w, events[..k]) && Extends(Execute(w, events[..k]).pods, Execute(w, events).pods)
    decreases |events|
  {
    LegalPrefix(w, events, k);
    if k == |events| {
      assert events[..k] == events;
    } else {
      var front, last := events[..|events| - 1], events[|events| - 1];
      RunExtends(w, front, k);
      assert front[..k] == events[..k];
      StepExtends(Execute(w, front), last);
    }
  }

  /** Every exit that restarts a pod has a code which that pod's own policy permits. */
  lemma {:induction false} RestartsFollowThePolicy(w: World, events: seq<Event>, i: nat, uid: string)
    requires Legal(w, events) && i < |events| && IsRestartOf(events[i], uid)
    ensures uid in Execute(w, events).pods
    ensures Permits(Execute(w, events).pods[uid].policy, events[i].exit.code)
  {
    StepAt(w, events, i);
    RunExtends(w, events, i);
  }

  /** Only a timer takes a pod back to Pending. */
  lemma {:induction false} OnlyTimersReturnToPending(w: World, e: Event, uid: string)
    requires Allowed(w, e) && uid in w.pods && w.pods[uid].phase != Pending
    ensures uid in Next(w, e).pods && (Next(w, e).pods[uid].phase == Pending ==> IsFireOf(e, uid))
  {
  }

  lemma {:induction false} SomeRestart(events: seq<Event>, uid: string) returns (i: nat)
    requires PermittedExits(events, uid) > 0
    ensures i < |events| && IsRestartOf(events[i], uid)
    decreases |events|
  {
    if IsRestartOf(events[|events| - 1], uid) {
      i := |events| - 1;
    } else {
      i := SomeRestart(events[..|events| - 1], uid);
    }
  }

  /** In every run from a state without timers, a step that takes a pod back to Pending comes after an exit
      attributed to it, with a code its own policy permits, and returns are never more than such exits. */
  lemma PendingOnlyAfterPermittedExit(w: World, events: seq<Event>, e: Event, uid: string) returns (i: nat)
    requires w.timers == [] && Legal(w, events) && Allowed(Execute(w, events), e)
    requires var u := Execute(w, events);
             uid in u.pods && u.pods[uid].phase != Pending && Next(u, e).pods[uid].phase == Pending
    ensures i < |events| && IsRestartOf(events[i], uid)
    ensures Permits(Execute(w, events).pods[uid].policy, events[i].exit.code)
    ensures Fires(events, uid) + 1 <= PermittedExits(events, uid)
  {
    var u := Execute(w, events);
    OnlyTimersReturnToPending(u, e, uid);
    TimersForRemoved(u.timers, e.index, uid);
    RestartsAreConserved(w, events, uid);
    i := SomeRestart(events, uid);
    RestartsFollowThePolicy(w, events, i, uid);
  }

  /** A pod whose policy is Never is never set back to Pending; under OnFailure, never by exit code zero. */
  lemma NeverMeansNever(w: World, events: seq<Event>, uid: string)
    requires w.timers == [] && Legal(w, events) && uid in Execute(w, events).pods
    ensures Execute(w, events).pods[uid].policy == Some(Never) ==> Fires(events, uid) == 0
    ensures Execute(w, events).pods[uid].policy == Some(OnFailure) ==>
              forall i | 0 <= i < |events| && IsRestartOf(events[i], uid) :: events[i].exit.code != 0
  {
    RestartsAreConserved(w, events, uid);
    if PermittedExits(events, uid) > 0 {
      var i := SomeRestart(events, uid);
      RestartsFollowThePolicy(w, events, i, uid);
    }
    forall i | 0 <= i < |events| && IsRestartOf(events[i], uid)
      ensures Permits(Execute(w, events).pods[uid].policy, events[i].exit.code)
    {
      RestartsFollowThePolicy(w, events, i, uid);
    }
  }

  // ---------------------------------------------------------------------
  // When a stop is final
  // ---------------------------------------------------------------------

  /** Without further restarts of the pod, it returns to Pending at most as often as timers are waiting for it. */
  lemma ReturnsAreBounded(w: World, events: seq<Event>, uid: string)
    requires Legal(w, events) && PermittedExits(events, uid) == 0
    ensures Fires(events, uid) <= TimersFor(w.timers, uid)
  {
    RestartsAreConserved(w, events, uid);
  }

  lemma {:induction false} StaysWithoutTimers(w: World, events: seq<Event>, uid: string)
    requires Legal(w, events) && uid in w.pods && w.pods[uid].phase != Pending && Fires(events, uid) == 0
    ensures uid in Execute(w, events).pods && Execute(w, events).pods[uid].phase != Pending
    decreases |events|
  {
    if events != [] {
      var front, last := events[..|events| - 1], events[|events| - 1];
      StaysWithoutTimers(w, front, uid);
      OnlyTimersReturnToPending(Execute(w, front), last, uid);
    }
  }

  lemma {:induction false} SomeTimer(timers: seq<Timer>, n: nat, uid: string) returns (i: nat)
    requires n <= |timers| && TimersIn(timers, n, uid) > 0
    ensures i < n && timers[i].uid == uid
  {
    if timers[n - 1].uid == uid {
      i := n - 1;
    } else {
      i := SomeTimer(timers, n - 1, uid);
    }
  }

  /** The pod is not Pending after the run. */
  ghost predicate NotPendingAfter(w: World, events: seq<Event>, uid: string)
    requires Legal(w, events)
  {
    var pods := Execute(w, events).pods;
    uid in pods && pods[uid].phase != Pending
  }

  /** A stopped pod stays away from Pending in every run without further restarts of it exactly when no timer was
      waiting for it: a stop does not cancel timers. */
  lemma StopIsFinalIff(w: World, uid: string)
    requires uid in w.pods && w.pods[uid].phase == Terminated
    ensures (forall events | Legal(w, events) && PermittedExits(events, uid) == 0 :: NotPendingAfter(w, events, uid))
            <==> TimersFor(w.timers, uid) == 0
  {
    if TimersFor(w.timers, uid) == 0 {
      forall events | Legal(w, events) && PermittedExits(events, uid) == 0 ensures NotPendingAfter(w, events, uid) {
        ReturnsAreBounded(w, events, uid);
        StaysWithoutTimers(w, events, uid);
      }
    } else {
      var i := SomeTimer(w.timers, |w.timers|, uid);
      var fire := Fire(i, w.timers[i]);
      RunOne(w, fire);
      assert [fire][..0] == [];
      assert PermittedExits([fire], uid) == PermittedExits([], uid) == 0;
      assert !NotPendingAfter(w, [fire], uid);
    }
  }

  // ---------------------------------------------------------------------
  // Restart counts and delays
  // ---------------------------------------------------------------------

  /** Restarts of a container since a stop last dropped its count. */
  function RestartsSinceStop(events: seq<Event>, cid: string): nat {
    if events == [] then 0
    else
      var last, before := events[|events| - 1], RestartsSinceStop(events[..|events| - 1], cid);
      if last == Forget(cid) then 0
      else if last.Handle? && last.exit.cid == cid && last.restart then before + 1
      else before
  }

  lemma CountStep(w: World, e: Event, cid: string)
    requires Allowed(w, e)
    ensures CountOf(Next(w, e).counts, cid) ==
            if e == Forget(cid) then 0
            else if e.Handle? && e.exit.cid == cid && e.restart then CountOf(w.counts, cid) + 1
            else CountOf(w.counts, cid)
  {
  }

  lemma {:induction false} CountsAreRestarts(w: World, events: seq<Event>, cid: string)
    requires Legal(w, events) && cid !in w.counts
    ensures CountOf(Execute(w, events).counts, cid) == RestartsSinceStop(events, cid)
    decreases |events|
  {
    if events != [] {
      var front, last := events[..|events| - 1], events[|events| - 1];
      CountsAreRestarts(w, front, cid);
      CountStep(Execute(w, front), last, cid);
    }
  }

  lemma HandleAddsTimer(w: World, e: Event, k: nat)
    requires Allowed(w, e) && e.Handle? && e.restart && e.owner.Some? && k == CountOf(w.counts, e.exit.cid) + 1
    ensures Next(w, e).timers == w.timers + [Timer(e.owner.value, Schedule(k))]
  {
    BackOff(k);
  }

  /** The k-th restart of a container since its last stop waits for the k-th delay of the back-off schedule. */
  lemma RestartWaits(w: World, events: seq<Event>, e: Event)
    requires Legal(w, events) && Allowed(Execute(w, events), e)
    requires e.Handle? && e.restart && e.owner.Some? && e.exit.cid !in w.counts
    ensures var k := RestartsSinceStop(events, e.exit.cid) + 1;
            Next(Execute(w, events), e).timers == Execute(w, events).timers
              + [Timer(e.owner.value, Schedule(k))]
  {
    CountsAreRestarts(w, events, e.exit.cid);
    HandleAddsTimer(Execute(w, events), e, RestartsSinceStop(events, e.exit.cid) + 1);
  }

  // ---------------------------------------------------------------------
  // One pass over the reaped processes
  // ---------------------------------------------------------------------

  function CidsOf(exits: seq<Exit>): set<string> {
    set e | e in exits :: e.cid
  }

  lemma CidsGrow(exits: seq<Exit>, k: nat)
    requires 0 < k <= |exits|
    ensures CidsOf(exits[..k]) == CidsOf(exits[..k - 1]) + {exits[k - 1].cid}
  {
    assert exits[..k] == exits[..k - 1] + [exits[k - 1]];
  }

  lemma HandlingRemoves(w: World, e: Event, exit: Exit, before: map<string, Option<nat>>, gone: set<string>)
    requires Allowed(w, e) && Handles(e, exit) && w.running == before - gone
    ensures Next(w, e).running == before - (gone + {exit.cid})
  {
    assert Next(w, e).running == w.running - {exit.cid};
  }

  lemma {:induction false} PassRunning(w: World, reaped: map<nat, int>, exits: seq<Exit>, trace: seq<Event>, k: nat)
    requires IsPass(w, reaped, exits, trace) && Legal(w, trace) && k <= |exits|
    ensures Legal(w, trace[..k + 1])
    ensures Execute(w, trace[..k + 1]).running == w.running - CidsOf(exits[..k])
    decreases k
  {
    StepAt(w, trace, k);
    if k > 0 {
      PassRunning(w, reaped, exits, trace, k - 1);
      CidsGrow(exits, k);
      HandlingRemoves(Execute(w, trace[..k]), trace[k], exits[k - 1], w.running, CidsOf(exits[..k - 1]));
    } else {
      assert trace[..0] == [];
    }
  }

  /** The step of a pass that handles exit k - 1. */
  lemma PassStep(w: World, reaped: map<nat, int>, exits: seq<Exit>, trace: seq<Event>, k: nat, cid: string)
    requires IsPass(w, reaped, exits, trace) && Legal(w, trace) && 0 < k <= |exits|
    ensures Legal(w, trace[..k]) && Legal(w, trace[..k + 1]) && Handles(trace[k], exits[k - 1])
    ensures CountOf(Execute(w, trace[..k + 1]).counts, cid) ==
            CountOf(Execute(w, trace[..k]).counts, cid) + if exits[k - 1].cid == cid && trace[k].restart then 1 else 0
  {
    StepAt(w, trace, k);
    CountStep(Execute(w, trace[..k]), trace[k], cid);
  }

  lemma {:induction false} PassKeepsCount(w: World, reaped: map<nat, int>, exits: seq<Exit>, trace: seq<Event>, k: nat,
                                          cid: string)
    requires IsPass(w, reaped, exits, trace) && Legal(w, trace) && k <= |exits|
    requires forall i | 0 <= i < k :: exits[i].cid != cid
    ensures Legal(w, trace[..k + 1])
    ensures CountOf(Execute(w, trace[..k + 1]).counts, cid) == CountOf(w.counts, cid)
    decreases k
  {
    if k > 0 {
      PassKeepsCount(w, reaped, exits, trace, k - 1, cid);
      PassStep(w, reaped, exits, trace, k, cid);
    } else {
      StepAt(w, trace, 0);
      assert trace[..0] == [];
      CountStep(w, trace[0], cid);
    }
  }

  lemma {:induction false} PassRaisesCount(w: World, reaped: map<nat, int>, exits: seq<Exit>, trace: seq<Event>, k: nat,
                                           i: nat)
    requires IsPass(w, reaped, exits, trace) && Legal(w, trace) && i < k <= |exits|
    ensures Legal(w, trace[..k + 1]) && trace[i + 1].Handle?
    ensures CountOf(Execute(w, trace[..k + 1]).counts, exits[i].cid) ==
            CountOf(w.counts, exits[i].cid) + if trace[i + 1].restart then 1 else 0
    decreases k
  {
    assert Handles(trace[i + 1], exits[i]);
    var cid := exits[i].cid;
    PassStep(w, reaped, exits, trace, k, cid);
    if k == i + 1 {
      OthersBefore(w.running, reaped, exits, i);
      PassKeepsCount(w, reaped, exits, trace, i, cid);
    } else {
      assert exits[k - 1].cid != cid;
      PassRaisesCount(w, reaped, exits, trace, k - 1, i);
    }
  }

  lemma OthersBefore(running: map<string, Option<nat>>, reaped: map<nat, int>, exits: seq<Exit>, i: nat)
    requires Lists(exits, running, reaped) && i < |exits|
    ensures forall j | 0 <= j < i :: exits[j].cid != exits[i].cid
  {
  }

  /** Each reaped process that is tracked takes away exactly its own entry, is handled with its own code, and at most
      its own restart count goes up, by one. */
  lemma PassIsExact(w: World, reaped: map<nat, int>, exits: seq<Exit>, trace: seq<Event>)
    requires IsPass(w, reaped, exits, trace) && Legal(w, trace)
    ensures var n := Execute(w, trace);
            && (forall cid :: cid in n.running <==>
                  cid in w.running && !(w.running[cid].Some? && w.running[cid].value in reaped))
            && (forall cid | cid in n.running :: n.running[cid] == w.running[cid])
            && (forall i | 0 <= i < |exits| ::
                  Handles(trace[i + 1], exits[i]) && exits[i].cid in w.running && exits[i].pid in reaped
                  && w.running[exits[i].cid] == Some(exits[i].pid) && reaped[exits[i].pid] == exits[i].code)
            && (forall i | 0 <= i < |exits| :: CountOf(n.counts, exits[i].cid)
                  == CountOf(w.counts, exits[i].cid) + if trace[i + 1].restart then 1 else 0)
            && (forall cid | cid !in CidsOf(exits) :: CountOf(n.counts, cid) == CountOf(w.counts, cid))
  {
    var n, m := Execute(w, trace), |exits|;
    assert trace[..m + 1] == trace && exits[..m] == exits;
    PassRunning(w, reaped, exits, trace, m);
    forall cid ensures cid in CidsOf(exits) <==>
                       cid in w.running && w.running[cid].Some? && w.running[cid].value in reaped {
      DeadCids(w.running, reaped, exits, cid);
    }
    forall i | 0 <= i < m ensures CountOf(n.counts, exits[i].cid)
                                  == CountOf(w.counts, exits[i].cid) + if trace[i + 1].restart then 1 else 0 {
      PassRaisesCount(w, reaped, exits, trace, m, i);
    }
    forall i | 0 <= i < m ensures Handles(trace[i + 1], exits[i]) && IsDead(w.running, reaped, exits[i]) {}
    forall cid | cid !in CidsOf(exits) ensures CountOf(n.counts, cid) == CountOf(w.counts, cid) {
      assert forall i | 0 <= i < m :: exits[i].cid in CidsOf(exits);
      PassKeepsCount(w, reaped, exits, trace, m, cid);
    }
  }

  /** The code of the last exit in the pass that ends the pod. */
  function LastFinal(trace: seq<Event>, uid: string): Option<int> {
    if trace == [] then None
    else
      var last := trace[|trace| - 1];
      if last.Handle? && last.owner == Some(uid) && !last.restart then Some(last.exit.code)
      else LastFinal(trace[..|trace| - 1], uid)
  }

  lemma PhaseStep(w: World, e: Event, uid: string)
    requires Allowed(w, e) && uid in w.pods && (e.Reap? || e.Handle?)
    ensures uid in Next(w, e).pods
    ensures Next(w, e).pods[uid].phase ==
            if e.Handle? && e.owner == Some(uid) && !e.restart
            then (if e.exit.code == 0 then Succeeded else Failed(e.exit.code)) else w.pods[uid].phase
  {
  }

  /** A pass changes a pod's phase only by an exit its policy does not restart; the last such exit decides. */
  lemma {:induction false} PassPhases(w: World, trace: seq<Event>, uid: string)
    requires Legal(w, trace) && uid in w.pods
    requires forall i | 0 <= i < |trace| :: trace[i].Reap? || trace[i].Handle?
    ensures uid in Execute(w, trace).pods
    ensures Execute(w, trace).pods[uid].phase ==
            match LastFinal(trace, uid)
            case None => w.pods[uid].phase
            case Some(code) => if code == 0 then Succeeded else Failed(code)
    decreases |trace|
  {
    if trace != [] {
      var front, last := trace[..|trace| - 1], trace[|trace| - 1];
      PassPhases(w, front, uid);
      assert last.Reap? || last.Handle?;
      PhaseStep(Execute(w, front), last, uid);
    }
  }

  /** The code of a process is the last one it was reaped with. */
  lemma {:induction false} ReapedCodeIsLast(reaped: seq<(nat, int)>, i: nat)
    requires i < |reaped| && forall j | i < j < |reaped| :: reaped[j].0 != reaped[i].0
    ensures reaped[i].0 in ReapedMap(reaped) && ReapedMap(reaped)[reaped[i].0] == reaped[i].1
    decreases |reaped|
  {
    if i < |reaped| - 1 {
      ReapedCodeIsLast(reaped[..|reaped| - 1], i);
    }
  }

  lemma {:induction false} OnlyReapedHaveCodes(reaped: seq<(nat, int)>, pid: nat)
    ensures pid in ReapedMap(reaped) <==> exists i | 0 <= i < |reaped| :: reaped[i].0 == pid
    decreases |reaped|
  {
    if reaped != [] {
      var front := reaped[..|reaped| - 1];
      OnlyReapedHaveCodes(front, pid);
      assert forall i | 0 <= i < |front| :: front[i] == reaped[i];
    }
  }

  lemma DeadCids(running: map<string, Option<nat>>, reaped: map<nat, int>, exits: seq<Exit>, cid: string)
    requires Lists(exits, running, reaped)
    ensures cid in CidsOf(exits) <==> cid in running && running[cid].Some? && running[cid].value in reaped
  {
    if cid in CidsOf(exits) {
      var e :| e in exits && e.cid == cid;
      assert IsDead(running, reaped, e);
    }
  }

  // ---------------------------------------------------------------------
  // Exit handling between other steps
  // ---------------------------------------------------------------------

  /** Entries of other processes, and placeholders, are left alone. */
  predicate SparesOthers(before: map<string, Option<nat>>, after: map<string, Option<nat>>, pid: nat) {
    forall cid | cid in before && before[cid] != Some(pid) :: cid in after && after[cid] == before[cid]
  }

  /** In every run, handling an exit removes at most the entry of its own container id and raises at most that
      id's restart count, by one; the entry it removes is that of the reaped process, and not of another one,
      exactly when the id is tracked under that process or not at all. */
  lemma {:induction false} HandlingIsExactIff(w: World, events: seq<Event>, e: Event)
    requires Legal(w, events) && e.Handle? && Allowed(Execute(w, events), e)
    ensures var u := Execute(w, events);
            var n := Next(u, e);
            && n.running == u.running - {e.exit.cid}
            && (forall cid :: CountOf(n.counts, cid) ==
                  CountOf(u.counts, cid) + if cid == e.exit.cid && e.restart then 1 else 0)
            && (SparesOthers(u.running, n.running, e.exit.pid) <==>
                e.exit.cid !in u.running || u.running[e.exit.cid] == Some(e.exit.pid))
  {
    var u := Execute(w, events);
    var n := Next(u, e);
    HandlingRemoves(u, e, e.exit, u.running, {});
    forall cid ensures CountOf(n.counts, cid) ==
                       CountOf(u.counts, cid) + if cid == e.exit.cid && e.restart then 1 else 0 {
      CountStep(u, e, cid);
    }
  }

  /** The step changes what the container id is tracked under. */
  predicate Touches(e: Event, cid: string) {
    match e
    case Place(cids) => cid in cids
    case Remove(cids) => cid in cids
    case Commit(started) => exists s | s in started :: s.0 == cid
    case Handle(exit, _, _) => exit.cid == cid
    case _ => false
  }

  lemma UntouchedStays(w: World, e: Event, cid: string)
    requires Allowed(w, e) && !Touches(e, cid) && cid in w.running
    ensures cid in Next(w, e).running && Next(w, e).running[cid] == w.running[cid]
  {
    if e.Commit? { CommittedShape(w.running, e.started); }
  }

  lemma {:induction false} UntouchedThrough(w: World, events: seq<Event>, i: nat, j: nat, cid: string)
    requires Legal(w, events) && i <= j <= |events| && forall k | i <= k < j :: !Touches(events[k], cid)
    requires Legal(w, events[..i]) && cid in Execute(w, events[..i]).running
    ensures Legal(w, events[..j]) && cid in Execute(w, events[..j]).running
    ensures Execute(w, events[..j]).running[cid] == Execute(w, events[..i]).running[cid]
    decreases j
  {
    if i < j {
      UntouchedThrough(w, events, i, j - 1, cid);
      StepAt(w, events, j - 1);
      UntouchedStays(Execute(w, events[..j - 1]), events[j - 1], cid);
    }
  }

  /** In every run in which no step between the listing of an exit and its handling touches the container id, the
      handling removes the entry of the reaped process and leaves all others. */
  lemma UntouchedExitIsItsOwn(w: World, events: seq<Event>, i: nat, e: Event)
    requires Legal(w, events) && e.Handle? && Allowed(Execute(w, events), e)
    requires i < |events| && events[i].Reap? && e.exit in events[i].exits
    requires forall k | i < k < |events| :: !Touches(events[k], e.exit.cid)
    ensures var u := Execute(w, events);
            && e.exit.cid in u.running && u.running[e.exit.cid] == Some(e.exit.pid)
            && Next(u, e).running == u.running - {e.exit.cid}
            && SparesOthers(u.running, Next(u, e).running, e.exit.pid)
  {
    StepAt(w, events, i);
    var m :| 0 <= m < |events[i].exits| && events[i].exits[m] == e.exit;
    var u := Execute(w, events[..i]);
    assert IsDead(u.running, events[i].reaped, events[i].exits[m]);
    UntouchedStays(u, events[i], e.exit.cid);
    UntouchedThrough(w, events, i + 1, |events|, e.exit.cid);
    assert events[..|events|] == events;
    HandlingIsExactIff(w, events, e);
  }

  /** A stop and a start between the listing of an exit and its handling: the handling drops the entry of the new
      process, which was never reaped. */
  lemma StaleExitDropsNewProcess(w: World, cid: string, pid: nat, newPid: nat, code: int, owner: Option<string>)
    requires w.running == map[cid := Some(pid)] && pid != newPid && IsOwner(w.pods, cid, owner)
    ensures var exit := Exit(cid, pid, code);
            var events := [Reap([exit], map[pid := code]), Remove([cid]), Commit([(cid, newPid)])];
            var e := Handle(exit, owner, Permits(PolicyOf(w.pods, owner), code));
            && Legal(w, events) && Execute(w, events).running == map[cid := Some(newPid)]
            && Allowed(Execute(w, events), e) && Next(Execute(w, events), e).running == map[]
  {
    var exit := Exit(cid, pid, code);
    var u := w.(running := map[cid := Some(newPid)], dead := w.dead + multiset([exit]));
    var e := Handle(exit, owner, Permits(PolicyOf(w.pods, owner), code));
    RestartedMeanwhile(w, exit, newPid);
    assert exit in multiset([exit]) && Allowed(u, e);
    HandlingRemoves(u, e, exit, u.running, {});
    assert u.running - ({} + {cid}) == map[];
  }

  lemma RestartedMeanwhile(w: World, exit: Exit, newPid: nat)
    requires w.running == map[exit.cid := Some(exit.pid)]
    ensures var events := [Reap([exit], map[exit.pid := exit.code]), Remove([exit.cid]), Commit([(exit.cid, newPid)])];
            Legal(w, events) && Execute(w, events) == w.(running := map[exit.cid := Some(newPid)],
                                                         dead := w.dead + multiset([exit]))
  {
    ReplacedEntry(w.running, exit.cid, newPid);
    assert exit in [exit];
    RunThree(w, Reap([exit], map[exit.pid := exit.code]), Remove([exit.cid]), Commit([(exit.cid, newPid)]));
  }

  lemma ReplacedEntry(running: map<string, Option<nat>>, cid: string, newPid: nat)
    requires running.Keys == {cid}
    ensures Removed(running, [cid]) == map[]
    ensures Committed(map[], [(cid, newPid)]) == map[cid := Some(newPid)]
  {
    var none: map<string, Option<nat>> := map[];
    assert cid in [cid] && [(cid, newPid)][..0] == [];
    assert Committed(none, [(cid, newPid)]) == Committed(none, [])[cid := Some(newPid)];
  }

  // ---------------------------------------------------------------------
  // When an exit restarts
  // ---------------------------------------------------------------------

  /** The restart policy lets this exit restart: always under Always, under a missing policy and under an unknown
      one; under OnFailure for a code other than zero; never under Never. */
  predicate CallsForRestart(policy: Option<Policy>, code: int) {
    policy == None || policy == Some(Always) || (policy.Some? && policy.value.Other?)
    || (policy == Some(OnFailure) && code != 0)
  }

  /** In every run, handling an exit raises the restart count and adds a timer for the pod found exactly when that
      pod's policy calls for it (a container of no pod is restarted too, with no timer); otherwise it sets the pod
      found to Succeeded for code zero and to Failed for any other. */
  lemma {:induction false} HandlingFollowsPolicyIff(w: World, events: seq<Event>, e: Event)
    requires Legal(w, events) && e.Handle? && Allowed(Execute(w, events), e)
    ensures var u := Execute(w, events);
            var n := Next(u, e);
            var cid := e.exit.cid;
            var policy := if e.owner.Some? then u.pods[e.owner.value].policy else None;
            var k := (if cid in u.counts then u.counts[cid] else 0) + 1;
            && (e.owner.Some? ==> e.owner.value in u.pods)
            && (CallsForRestart(policy, e.exit.code) <==> n.counts == u.counts[cid := k])
            && if CallsForRestart(policy, e.exit.code)
               then n.pods == u.pods
                    && n.timers == u.timers + if e.owner.Some? then [Timer(e.owner.value, Schedule(k))] else []
               else n.counts == u.counts && n.timers == u.timers && e.owner.Some?
                    && n.pods == u.pods[e.owner.value := u.pods[e.owner.value].(
                                        phase := if e.exit.code == 0 then Succeeded else Failed(e.exit.code))]
  {
    var u := Execute(w, events);
    HandledByPolicy(u, e);
  }

  lemma HandledByPolicy(u: World, e: Event)
    requires e.Handle? && Allowed(u, e)
    ensures var n := Next(u, e);
            var cid := e.exit.cid;
            var policy := if e.owner.Some? then u.pods[e.owner.value].policy else None;
            var k := (if cid in u.counts then u.counts[cid] else 0) + 1;
            && (e.owner.Some? ==> e.owner.value in u.pods)
            && (CallsForRestart(policy, e.exit.code) <==> n.counts == u.counts[cid := k])
            && if CallsForRestart(policy, e.exit.code)
               then n.pods == u.pods
                    && n.timers == u.timers + if e.owner.Some? then [Timer(e.owner.value, Schedule(k))] else []
               else n.counts == u.counts && n.timers == u.timers && e.owner.Some?
                    && n.pods == u.pods[e.owner.value := u.pods[e.owner.value].(
                                        phase := if e.exit.code == 0 then Succeeded else Failed(e.exit.code))]
  {
    var k := (if e.exit.cid in u.counts then u.counts[e.exit.cid] else 0) + 1;
    BackOff(k);
    assert u.counts[e.exit.cid := k] != u.counts by {
      assert u.counts[e.exit.cid := k][e.exit.cid] == k;
    }
  }

  // ---------------------------------------------------------------------
  // Exits of a pod's own containers
  // ---------------------------------------------------------------------

  /** The id of a container of some stored pod. */
  ghost predicate OfSomePod(pods: map<string, Pod>, cid: string) {
    exists uid, c :: OfPod(pods, cid, uid, c)
  }

  predicate OfPod(pods: map<string, Pod>, cid: string, uid: string, c: string) {
    uid in pods && cid == ContainerId(pods[uid].name, c)
  }

  /** Starts track the containers of stored pods only. */
  ghost predicate StartsStored(w: World, e: Event) {
    match e
    case Place(cids) => forall cid | cid in cids :: OfSomePod(w.pods, cid)
    case Commit(started) => forall s | s in started :: OfSomePod(w.pods, s.0)
    case _ => true
  }

  ghost predicate AllStartsStored(w: World, events: seq<Event>)
    requires Legal(w, events)
  {
    forall k | 0 <= k < |events| ::
      Legal(w, events[..k]) ==> StartsStored(Execute(w, events[..k]), events[k])
  }

  ghost predicate AllTrackedStored(w: World) {
    (forall cid | cid in w.running :: OfSomePod(w.pods, cid))
    && forall exit | exit in w.dead :: OfSomePod(w.pods, exit.cid)
  }

  lemma StaysOfSomePod(a: map<string, Pod>, b: map<string, Pod>, cid: string)
    requires Extends(a, b) && OfSomePod(a, cid)
    ensures OfSomePod(b, cid)
  {
    var uid, c :| OfPod(a, cid, uid, c);
    assert OfPod(b, cid, uid, c);
  }

  lemma TrackedStep(w: World, e: Event)
    requires Allowed(w, e) && AllTrackedStored(w) && StartsStored(w, e)
    ensures AllTrackedStored(Next(w, e))
  {
    var n := Next(w, e);
    StepExtends(w, e);
    forall cid | cid in n.running ensures OfSomePod(n.pods, cid) {
      if e.Commit? { CommittedShape(w.running, e.started); }
      assert OfSomePod(w.pods, cid);
      StaysOfSomePod(w.pods, n.pods, cid);
    }
    forall exit | exit in n.dead ensures OfSomePod(n.pods, exit.cid) {
      if e.Reap? && exit !in w.dead {
        var m :| 0 <= m < |e.exits| && e.exits[m] == exit;
        assert IsDead(w.running, e.reaped, e.exits[m]);
      }
      assert OfSomePod(w.pods, exit.cid);
      StaysOfSomePod(w.pods, n.pods, exit.cid);
    }
  }

  lemma {:induction false} RunTracksStored(w: World, events: seq<Event>, k: nat)
    requires Legal(w, events) && AllTrackedStored(w) && AllStartsStored(w, events) && k <= |events|
    ensures Legal(w, events[..k]) && AllTrackedStored(Execute(w, events[..k]))
    decreases k
  {
    if k == 0 {
      assert events[..0] == [];
    } else {
      RunTracksStored(w, events, k - 1);
      StepAt(w, events, k - 1);
      TrackedStep(Execute(w, events[..k - 1]), events[k - 1]);
    }
  }

  /** No two stored pods have names that meet. */
  ghost predicate NamesApart(pods: map<string, Pod>) {
    forall a, b | a in pods && b in pods && a != b :: !NamesMeet(pods[a].name, pods[b].name)
  }

  /** In every run that starts the containers of stored pods only, whose names do not meet: a pod returns to Pending
      only after an exit of a container of its own, with a code its own policy permits. */
  lemma PendingOnlyAfterOwnExit(w: World, events: seq<Event>, e: Event, uid: string) returns (i: nat, c: string)
    requires w.timers == [] && AllTrackedStored(w) && Legal(w, events) && AllStartsStored(w, events)
    requires Allowed(Execute(w, events), e) && NamesApart(Execute(w, events).pods)
    requires var u := Execute(w, events);
             uid in u.pods && u.pods[uid].phase != Pending && Next(u, e).pods[uid].phase == Pending
    ensures i < |events| && IsRestartOf(events[i], uid)
    ensures events[i].exit.cid == ContainerId(Execute(w, events).pods[uid].name, c)
    ensures Permits(Execute(w, events).pods[uid].policy, events[i].exit.code)
  {
    var pods := Execute(w, events).pods;
    i := PendingOnlyAfterPermittedExit(w, events, e, uid);
    StepAt(w, events, i);
    RunTracksStored(w, events, i);
    RunExtends(w, events, i);
    var before := Execute(w, events[..i]);
    var exit := events[i].exit;
    var own, name :| OfPod(before.pods, exit.cid, own, name);
    c := name;
    MatchIsOwner(pods, own, name, uid);
  }

  lemma MatchIsOwner(pods: map<string, Pod>, own: string, c: string, uid: string)
    requires own in pods && uid in pods && NamesApart(pods)
    requires Matches(pods[uid].name, ContainerId(pods[own].name, c))
    ensures uid == own
  {
    OwnerIsItsPodIff(pods, own);
    assert IsOwner(pods, ContainerId(pods[own].name, c), Some(uid));
  }
}
