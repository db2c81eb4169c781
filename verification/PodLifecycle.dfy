/** Pod start, stop and exit handling: the maps shared by the runtime and the process tracker, the steps that
    change them, and the methods as sequences of those steps. Starts and stops are stepped lock by lock; one
    iteration of the exit loop is one step. */
module PodLifecycle {
  import opened Prelude

  datatype Phase = Pending | Running | Succeeded | Failed(code: int) | Terminated

  datatype Policy = Always | OnFailure | Never | Other(text: string)

  /** A stored pod; `policy` is the restart policy of its spec, if any. */
  datatype Pod = Pod(name: string, policy: Option<Policy>, phase: Phase)

  /** A reaped process that belongs to a tracked container. */
  datatype Exit = Exit(cid: string, pid: nat, code: int)

  /** A spawned task that sets a pod back to Pending after a delay in seconds. */
  datatype Timer = Timer(uid: string, delay: nat)

  /** `running` maps a container id to its process, or to none for a placeholder. */
  datatype World = World(running: map<string, Option<nat>>, counts: map<string, nat>, pods: map<string, Pod>,
                         dead: multiset<Exit>, timers: seq<Timer>)

  // ---------------------------------------------------------------------
  // Names, policies, back-off
  // ---------------------------------------------------------------------

  function ContainerId(pod: string, container: string): string {
    pod + "-" + container
  }

  /** The test by which a container id is attributed to a pod. */
  predicate Matches(pod: string, cid: string) {
    pod + "-" <= cid
  }

  /** Whether an exit with this code restarts; a policy that is missing or not known restarts always. */
  predicate Permits(policy: Option<Policy>, code: int) {
    match policy
    case Some(OnFailure) => code != 0
    case Some(Never) => false
    case _ => true
  }

  function PolicyOf(pods: map<string, Pod>, owner: Option<string>): Option<Policy> {
    if owner.Some? && owner.value in pods then pods[owner.value].policy else None
  }

  function Min(a: nat, b: nat): nat {
    if a <= b then a else b
  }

  /** Seconds before the restart with this count. */
  function Delay(count: nat): nat {
    if count <= 1 then 0 else Min(Shl(10, Min(count - 2, 5)), 300)
  }

  /** The back-off schedule, by number of the restart. */
  function Schedule(k: nat): nat {
    match k
    case 0 => 0
    case 1 => 0
    case 2 => 10
    case 3 => 20
    case 4 => 40
    case 5 => 80
    case 6 => 160
    case _ => 300
  }

  lemma BackOff(count: nat)
    ensures Delay(count) == Schedule(count)
  {
    var n: nat := 0;
    assert Shl(10, n) == 10 && Shl(10, n + 1) == 20;
    assert Shl(10, n + 2) == 40 && Shl(10, n + 3) == 80;
    assert Shl(10, n + 4) == 160 && Shl(10, n + 5) == 320;
  }

  function CountOf(counts: map<string, nat>, cid: string): nat {
    if cid in counts then counts[cid] else 0
  }

  // ---------------------------------------------------------------------
  // Steps
  // ---------------------------------------------------------------------

  datatype Event =
    | Place(cids: seq<string>)                       // insert_placeholders
    | Remove(cids: seq<string>)                      // remove_placeholders, stop_container
    | Commit(started: seq<(string, nat)>)            // the spawned containers replace the placeholders
    | Forget(cid: string)                            // a stop drops the restart count
    | SetPhase(uid: string, phase: Phase)            // a start or a stop has ended
    | Reap(exits: seq<Exit>, reaped: map<nat, int>)  // exit handling lists the dead containers
    | Handle(exit: Exit, owner: Option<string>, restart: bool)
    | Fire(index: nat, timer: Timer)                 // a restart delay has passed
    | Create(uid: string, pod: Pod)                  // first apply

  function Placed(running: map<string, Option<nat>>, cids: seq<string>): map<string, Option<nat>> {
    map cid | cid in running.Keys + (set c | c in cids) :: if cid in running then running[cid] else None
  }

  function Removed(running: map<string, Option<nat>>, cids: seq<string>): map<string, Option<nat>> {
    running - (set c | c in cids)
  }

  function Committed(running: map<string, Option<nat>>, started: seq<(string, nat)>): map<string, Option<nat>> {
    if started == [] then running
    else
      var last := started[|started| - 1];
      Committed(running, started[..|started| - 1])[last.0 := Some(last.1)]
  }

  /** `update_state`: a missing key is ignored. */
  function WithPhase(pods: map<string, Pod>, uid: string, phase: Phase): map<string, Pod> {
    if uid in pods then pods[uid := pods[uid].(phase := phase)] else pods
  }

  /** One iteration of the exit loop. */
  function Handled(w: World, exit: Exit, owner: Option<string>, restart: bool): World {
    var rest := w.(running := w.running - {exit.cid}, dead := w.dead - multiset{exit});
    if restart then
      var count := CountOf(w.counts, exit.cid) + 1;
      rest.(counts := w.counts[exit.cid := count],
            timers := if owner.Some? then w.timers + [Timer(owner.value, Delay(count))] else w.timers)
    else if owner.Some? then
      rest.(pods := WithPhase(w.pods, owner.value, if exit.code == 0 then Succeeded else Failed(exit.code)))
    else rest
  }

  /** The pod found for a container id is any pod that matches; the store lists pods in no fixed order. */
  predicate IsOwner(pods: map<string, Pod>, cid: string, owner: Option<string>) {
    if owner.Some? then owner.value in pods && Matches(pods[owner.value].name, cid)
    else forall uid | uid in pods :: !Matches(pods[uid].name, cid)
  }

  /** The tracked containers whose process was reaped, each once. */
  predicate Lists(exits: seq<Exit>, running: map<string, Option<nat>>, reaped: map<nat, int>) {
    (forall i, j | 0 <= i < j < |exits| :: exits[i].cid != exits[j].cid)
    && (forall i | 0 <= i < |exits| :: IsDead(running, reaped, exits[i]))
    && (forall cid | cid in running && running[cid].Some? && running[cid].value in reaped ::
          Exit(cid, running[cid].value, reaped[running[cid].value]) in exits)
  }

  predicate IsDead(running: map<string, Option<nat>>, reaped: map<nat, int>, e: Exit) {
    e.cid in running && running[e.cid] == Some(e.pid) && e.pid in reaped && reaped[e.pid] == e.code
  }

  predicate Allowed(w: World, e: Event) {
    match e
    case SetPhase(_, phase) => phase == Running || phase == Terminated
    case Handle(exit, owner, restart) =>
      exit in w.dead && IsOwner(w.pods, exit.cid, owner) && restart == Permits(PolicyOf(w.pods, owner), exit.code)
    case Reap(exits, reaped) => Lists(exits, w.running, reaped)
    case Fire(i, timer) => i < |w.timers| && w.timers[i] == timer
    case Create(uid, pod) => uid !in w.pods && pod.phase == Pending
    case _ => true
  }

  function Next(w: World, e: Event): World
    requires Allowed(w, e)
  {
    match e
    case Place(cids) => w.(running := Placed(w.running, cids))
    case Remove(cids) => w.(running := Removed(w.running, cids))
    case Commit(started) => w.(running := Committed(w.running, started))
    case Forget(cid) => w.(counts := w.counts - {cid})
    case SetPhase(uid, phase) => w.(pods := WithPhase(w.pods, uid, phase))
    case Reap(exits, _) => w.(dead := w.dead + multiset(exits))
    case Handle(exit, owner, restart) => Handled(w, exit, owner, restart)
    case Fire(i, timer) =>
      w.(pods := WithPhase(w.pods, timer.uid, Pending), timers := w.timers[..i] + w.timers[i + 1..])
    case Create(uid, pod) => w.(pods := w.pods[uid := pod])
  }

  predicate Legal(w: World, events: seq<Event>)
    decreases |events|, 0
  {
    events != [] ==>
      Legal(w, events[..|events| - 1]) && Allowed(Execute(w, events[..|events| - 1]), events[|events| - 1])
  }

  function Execute(w: World, events: seq<Event>): World
    requires Legal(w, events)
    decreases |events|, 1
  {
    if events == [] then w
    else Next(Execute(w, events[..|events| - 1]), events[|events| - 1])
  }

  lemma Extend(w: World, events: seq<Event>, e: Event)
    requires Legal(w, events) && Allowed(Execute(w, events), e)
    ensures Legal(w, events + [e]) && Execute(w, events + [e]) == Next(Execute(w, events), e)
  {
    assert (events + [e])[..|events|] == events;
  }

  lemma RunOne(w: World, a: Event)
    requires Allowed(w, a)
    ensures Legal(w, [a]) && Execute(w, [a]) == Next(w, a)
  {
    assert [] + [a] == [a];
    Extend(w, [], a);
  }

  lemma RunTwo(w: World, a: Event, b: Event)
    requires Allowed(w, a) && Allowed(Next(w, a), b)
    ensures Legal(w, [a, b]) && Execute(w, [a, b]) == Next(Next(w, a), b)
  {
    RunOne(w, a);
    assert [a] + [b] == [a, b];
    Extend(w, [a], b);
  }

  lemma RunThree(w: World, a: Event, b: Event, c: Event)
    requires Allowed(w, a) && Allowed(Next(w, a), b) && Allowed(Next(Next(w, a), b), c)
    ensures Legal(w, [a, b, c]) && Execute(w, [a, b, c]) == Next(Next(Next(w, a), b), c)
  {
    RunTwo(w, a, b);
    assert [a, b] + [c] == [a, b, c];
    Extend(w, [a, b], c);
  }

  // ---------------------------------------------------------------------
  // Start
  // ---------------------------------------------------------------------

  datatype Attempt = PrepareFailed | SpawnFailed | Spawned(pid: nat)

  function ContainerIds(name: string, containers: seq<string>): seq<string> {
    seq(|containers|, i requires 0 <= i < |containers| => ContainerId(name, containers[i]))
  }

  predicate AnyMatches(running: map<string, Option<nat>>, name: string) {
    exists cid | cid in running :: Matches(name, cid)
  }

  /** How the loop over the containers ends: the first failure decides. */
  function FirstFailure(attempts: seq<Attempt>): (r: Option<Attempt>)
    ensures r.Some? ==> !r.value.Spawned?
  {
    if attempts == [] then None
    else if attempts[0].Spawned? then FirstFailure(attempts[1..])
    else Some(attempts[0])
  }

  function StartedWith(cids: seq<string>, attempts: seq<Attempt>): seq<(string, nat)>
    requires |cids| == |attempts| && forall i | 0 <= i < |attempts| :: attempts[i].Spawned?
  {
    seq(|cids|, i requires 0 <= i < |cids| => (cids[i], attempts[i].pid))
  }

  lemma {:induction false} NoFailure(attempts: seq<Attempt>)
    ensures FirstFailure(attempts).None? <==> forall i | 0 <= i < |attempts| :: attempts[i].Spawned?
  {
    if attempts != [] {
      NoFailure(attempts[1..]);
      assert (forall i | 0 <= i < |attempts| :: attempts[i].Spawned?) <==>
             attempts[0].Spawned? && forall i | 0 <= i < |attempts[1..]| :: attempts[1..][i].Spawned?;
    }
  }

  lemma {:induction false} FailureAt(attempts: seq<Attempt>, k: nat)
    requires k < |attempts| && !attempts[k].Spawned? && forall i | 0 <= i < k :: attempts[i].Spawned?
    ensures FirstFailure(attempts) == Some(attempts[k])
    decreases k
  {
    if k > 0 { FailureAt(attempts[1..], k - 1); }
  }

  /** The running map after an uninterrupted start. */
  function StartedRunning(running: map<string, Option<nat>>, cids: seq<string>, duplicate: bool, cgroupOk: bool,
                          attempts: seq<Attempt>): map<string, Option<nat>>
    requires |cids| == |attempts|
  {
    if duplicate then running
    else if !cgroupOk then Removed(Placed(running, cids), cids)
    else
      NoFailure(attempts);
      match FirstFailure(attempts)
      case None => Committed(Placed(running, cids), StartedWith(cids, attempts))
      case Some(PrepareFailed) => Placed(running, cids)
      case Some(_) => Removed(Placed(running, cids), cids)
  }

  predicate StartOk(duplicate: bool, cgroupOk: bool, attempts: seq<Attempt>) {
    duplicate || (cgroupOk && FirstFailure(attempts).None?)
  }

  /** The steps of an uninterrupted start. */
  function StartEvents(uid: string, cids: seq<string>, duplicate: bool, cgroupOk: bool, attempts: seq<Attempt>)
    : seq<Event>
    requires |cids| == |attempts|
  {
    if duplicate then [SetPhase(uid, Running)]
    else if !cgroupOk then [Place(cids), Remove(cids)]
    else
      NoFailure(attempts);
      match FirstFailure(attempts)
      case None => [Place(cids), Commit(StartedWith(cids, attempts)), SetPhase(uid, Running)]
      case Some(PrepareFailed) => [Place(cids)]
      case Some(_) => [Place(cids), Remove(cids)]
  }

  function ReapedMap(reaped: seq<(nat, int)>): map<nat, int> {
    if reaped == [] then map[]
    else
      var last := reaped[|reaped| - 1];
      ReapedMap(reaped[..|reaped| - 1])[last.0 := last.1]
  }

  /** The steps of an uninterrupted pass over the reaped processes: list the dead containers, handle each once. */
  predicate IsPass(w: World, reaped: map<nat, int>, exits: seq<Exit>, trace: seq<Event>) {
    Lists(exits, w.running, reaped) && |trace| == |exits| + 1 && trace[0] == Reap(exits, reaped)
    && forall i | 0 <= i < |exits| :: Handles(trace[i + 1], exits[i])
  }

  predicate Handles(e: Event, exit: Exit) {
    e.Handle? && e.exit == exit
  }

  lemma DeadSplits(exits: seq<Exit>, i: nat)
    requires i < |exits|
    ensures exits[i] in multiset(exits[i..])
    ensures multiset(exits[i..]) - multiset{exits[i]} == multiset(exits[i + 1..])
  {
    assert exits[i..] == [exits[i]] + exits[i + 1..];
  }

  class ProcessTracker {
    var running: map<string, Option<nat>>
    var counts: map<string, nat>
    var pods: map<string, Pod>
    var timers: seq<Timer>

    ghost function State(): World
      reads this
    {
      World(running, counts, pods, multiset{}, timers)
    }

    constructor (pods: map<string, Pod>)
      ensures State() == World(map[], map[], pods, multiset{}, [])
    {
      running, counts, timers := map[], map[], [];
      this.pods := pods;
    }

    method UpdateState(uid: string, phase: Phase)
      modifies this`pods
      ensures pods == WithPhase(old(pods), uid, phase)
    {
      if uid in pods {
        pods := pods[uid := pods[uid].(phase := phase)];
      }
    }

    /** `insert_placeholders`: an id that is already tracked keeps its entry. */
    method InsertPlaceholders(cids: seq<string>)
      modifies this`running
      ensures running == Placed(old(running), cids)
    {
      for i := 0 to |cids|
        invariant running == Placed(old(running), cids[..i])
      {
        assert cids[..i + 1] == cids[..i] + [cids[i]];
        if cids[i] !in running {
          running := running[cids[i] := None];
        }
      }
      assert cids[..|cids|] == cids;
    }

    method RemovePlaceholders(cids: seq<string>)
      modifies this`running
      ensures running == Removed(old(running), cids)
    {
      for i := 0 to |cids|
        invariant running == Removed(old(running), cids[..i])
      {
        assert cids[..i + 1] == cids[..i] + [cids[i]];
        running := running - {cids[i]};
      }
      assert cids[..|cids|] == cids;
    }

    /** `spawn_all_containers`: a spawn failure takes the placeholders back, a failed image does not. */
    method SpawnAll(cids: seq<string>, attempts: seq<Attempt>) returns (prepared: Option<seq<(string, nat)>>)
      requires |cids| == |attempts|
      modifies this`running
      ensures prepared.Some? <==> FirstFailure(attempts).None?
      ensures prepared.Some? ==> (forall i | 0 <= i < |attempts| :: attempts[i].Spawned?)
                                 && prepared.value == StartedWith(cids, attempts)
      ensures running == if FirstFailure(attempts) == Some(SpawnFailed) then Removed(old(running), cids)
                         else old(running)
    {
      var done: seq<(string, nat)> := [];
      for i := 0 to |cids|
        invariant running == old(running) && |done| == i
        invariant forall j | 0 <= j < i :: attempts[j].Spawned? && done[j] == (cids[j], attempts[j].pid)
      {
        match attempts[i]
        case PrepareFailed =>
          FailureAt(attempts, i);
          return None;
        case SpawnFailed =>
          FailureAt(attempts, i);
          RemovePlaceholders(cids);
          return None;
        case Spawned(pid) =>
          done := done + [(cids[i], pid)];
      }
      NoFailure(attempts);
      assert done == StartedWith(cids, attempts);
      return Some(done);
    }

    method CommitAll(started: seq<(string, nat)>)
      modifies this`running
      ensures running == Committed(old(running), started)
    {
      for i := 0 to |started|
        invariant running == Committed(old(running), started[..i])
      {
        assert started[..i + 1][..i] == started[..i];
        running := running[started[i].0 := Some(started[i].1)];
      }
      assert started[..|started|] == started;
    }

    /** `start_pod`, with the outcomes of the cgroup, image and spawn calls as parameters. */
    method StartPod(uid: string, name: string, containers: seq<string>, cgroupOk: bool, attempts: seq<Attempt>)
      returns (ok: bool)
      requires |attempts| == |containers|
      modifies this
      ensures running == StartedRunning(old(running), ContainerIds(name, containers),
                                        AnyMatches(old(running), name), cgroupOk, attempts)
      ensures ok == StartOk(AnyMatches(old(running), name), cgroupOk, attempts)
      ensures pods == if ok then WithPhase(old(pods), uid, Running) else old(pods)
      ensures counts == old(counts) && timers == old(timers)
    {
      var cids := ContainerIds(name, containers);
      if exists cid | cid in running :: Matches(name, cid) {
        UpdateState(uid, Running);
        return true;
      }
      InsertPlaceholders(cids);
      if !cgroupOk {
        RemovePlaceholders(cids);
        return false;
      }
      var prepared := SpawnAll(cids, attempts);
      if prepared.None? { return false; }
      CommitAll(prepared.value);
      UpdateState(uid, Running);
      return true;
    }

    /** `reconcile`: only a Pending pod is started. */
    method Reconcile(uid: string, containers: seq<string>, cgroupOk: bool, attempts: seq<Attempt>)
      requires uid in pods && |attempts| == |containers|
      modifies this
      ensures old(pods)[uid].phase != Pending ==> State() == old(State())
      ensures var name := old(pods)[uid].name;
              old(pods)[uid].phase == Pending ==>
                running == StartedRunning(old(running), ContainerIds(name, containers),
                                          AnyMatches(old(running), name), cgroupOk, attempts)
                && pods == (if StartOk(AnyMatches(old(running), name), cgroupOk, attempts)
                            then WithPhase(old(pods), uid, Running) else old(pods))
                && counts == old(counts) && timers == old(timers)
    {
      if pods[uid].phase == Pending {
        var _ := StartPod(uid, pods[uid].name, containers, cgroupOk, attempts);
      }
    }

    method FindOwner(cid: string) returns (owner: Option<string>)
      ensures IsOwner(pods, cid, owner)
    {
      var todo := pods.Keys;
      while todo != {}
        invariant todo <= pods.Keys && forall uid | uid in pods && uid !in todo :: !Matches(pods[uid].name, cid)
      {
        var uid :| uid in todo;
        if Matches(pods[uid].name, cid) { return Some(uid); }
        todo := todo - {uid};
      }
      return None;
    }

    method ListDead(reaped: map<nat, int>) returns (exits: seq<Exit>)
      ensures Lists(exits, running, reaped)
    {
      exits := [];
      var todo := running.Keys;
      while todo != {}
        invariant todo <= running.Keys
        invariant forall i, j | 0 <= i < j < |exits| :: exits[i].cid != exits[j].cid
        invariant forall i | 0 <= i < |exits| :: exits[i].cid !in todo && IsDead(running, reaped, exits[i])
        invariant forall cid | cid in running && cid !in todo && running[cid].Some? && running[cid].value in reaped ::
                    Exit(cid, running[cid].value, reaped[running[cid].value]) in exits
      {
        var cid :| cid in todo;
        if running[cid].Some? && running[cid].value in reaped {
          exits := exits + [Exit(cid, running[cid].value, reaped[running[cid].value])];
        }
        todo := todo - {cid};
      }
    }

    ghost function StateWith(dead: multiset<Exit>): World
      reads this
    {
      World(running, counts, pods, dead, timers)
    }

    /** One iteration: restart count and timer, or the final phase. */
    method HandleOne(exit: Exit, owner: Option<string>, restart: bool, ghost dead: multiset<Exit>)
      modifies this
      ensures StateWith(dead - multiset{exit}) == Handled(old(StateWith(dead)), exit, owner, restart)
    {
      running := running - {exit.cid};
      if restart {
        var count := CountOf(counts, exit.cid) + 1;
        counts := counts[exit.cid := count];
        if owner.Some? {
          timers := timers + [Timer(owner.value, Delay(count))];
        }
      } else if owner.Some? {
        UpdateState(owner.value, if exit.code == 0 then Succeeded else Failed(exit.code));
      }
    }

    /** One iteration with its look-up, as the next step of a run. */
    method HandleNext(exit: Exit, ghost before: World, ghost trace: seq<Event>, ghost dead: multiset<Exit>)
      returns (ghost last: Event)
      requires exit in dead && Legal(before, trace) && Execute(before, trace) == StateWith(dead)
      modifies this
      ensures Handles(last, exit) && Legal(before, trace + [last])
      ensures Execute(before, trace + [last]) == StateWith(dead - multiset{exit})
    {
      var owner := FindOwner(exit.cid);
      var restart := Permits(PolicyOf(pods, owner), exit.code);
      last := Handle(exit, owner, restart);
      Extend(before, trace, last);
      HandleOne(exit, owner, restart, dead);
    }

    method HandleAll(exits: seq<Exit>, ghost before: World, ghost reaped: map<nat, int>)
      returns (ghost trace: seq<Event>)
      requires State() == before && Lists(exits, running, reaped)
      modifies this
      ensures IsPass(before, reaped, exits, trace) && Legal(before, trace) && State() == Execute(before, trace)
    {
      trace := [Reap(exits, reaped)];
      RunOne(before, Reap(exits, reaped));
      assert exits[0..] == exits;
      for i := 0 to |exits|
        invariant |trace| == i + 1 && trace[0] == Reap(exits, reaped)
        invariant forall j | 0 <= j < i :: Handles(trace[j + 1], exits[j])
        invariant Legal(before, trace) && Execute(before, trace) == StateWith(multiset(exits[i..]))
      {
        DeadSplits(exits, i);
        ghost var last := HandleNext(exits[i], before, trace, multiset(exits[i..]));
        trace := trace + [last];
      }
    }

    method Codes(reaped: seq<(nat, int)>) returns (codes: map<nat, int>)
      ensures codes == ReapedMap(reaped)
    {
      codes := map[];
      for i := 0 to |reaped|
        invariant codes == ReapedMap(reaped[..i])
      {
        assert reaped[..i + 1][..i] == reaped[..i];
        codes := codes[reaped[i].0 := reaped[i].1];
      }
      assert reaped[..|reaped|] == reaped;
    }

    /** `handle_exited_containers`. */
    method HandleExited(reaped: seq<(nat, int)>)
      modifies this
      ensures exists exits, trace ::
                IsPass(old(State()), ReapedMap(reaped), exits, trace)
                && Legal(old(State()), trace) && State() == Execute(old(State()), trace)
    {
      var codes := Codes(reaped);
      var exits := ListDead(codes);
      ghost var trace := HandleAll(exits, State(), codes);
    }

    /** `stop_pod`. */
    method StopPod(uid: string, name: string, containers: seq<string>)
      modifies this
      ensures var cids := ContainerIds(name, containers);
              running == Removed(old(running), cids) && counts == old(counts) - (set c | c in cids)
              && pods == WithPhase(old(pods), uid, Terminated) && timers == old(timers)
    {
      var cids := ContainerIds(name, containers);
      for i := 0 to |cids|
        invariant running == Removed(old(running), cids[..i]) && counts == old(counts) - (set c | c in cids[..i])
        invariant pods == old(pods) && timers == old(timers)
      {
        assert cids[..i + 1] == cids[..i] + [cids[i]];
        running := running - {cids[i]};
        counts := counts - {cids[i]};
      }
      assert cids[..|cids|] == cids;
      UpdateState(uid, Terminated);
    }
  }

  /** An uninterrupted start is a run of its steps. */
  lemma StartIsARun(w: World, uid: string, cids: seq<string>, duplicate: bool, cgroupOk: bool, attempts: seq<Attempt>)
    requires |cids| == |attempts|
    ensures var events := StartEvents(uid, cids, duplicate, cgroupOk, attempts);
            Legal(w, events)
            && Execute(w, events) == w.(running := StartedRunning(w.running, cids, duplicate, cgroupOk, attempts),
                                        pods := if StartOk(duplicate, cgroupOk, attempts)
                                                then WithPhase(w.pods, uid, Running) else w.pods)
  {
    if duplicate {
      RunOne(w, SetPhase(uid, Running));
    } else if !cgroupOk || FirstFailure(attempts) == Some(SpawnFailed) {
      RunTwo(w, Place(cids), Remove(cids));
    } else if FirstFailure(attempts) == Some(PrepareFailed) {
      RunOne(w, Place(cids));
    } else {
      NoFailure(attempts);
      RunThree(w, Place(cids), Commit(StartedWith(cids, attempts)), SetPhase(uid, Running));
    }
  }

  function StopEvents(cids: seq<string>): seq<Event> {
    if cids == [] then []
    else
      var last := cids[|cids| - 1];
      StopEvents(cids[..|cids| - 1]) + [Remove([last])] + [Forget(last)]
  }

  lemma StopStep(w: World, front: seq<string>, last: string)
    ensures Removed(Removed(w.running, front), [last]) == Removed(w.running, front + [last])
    ensures w.counts - (set c | c in front) - {last} == w.counts - (set c | c in front + [last])
  {
  }

  function Stopped(w: World, cids: seq<string>): World {
    w.(running := Removed(w.running, cids), counts := w.counts - (set c | c in cids))
  }

  lemma {:induction false} StopsInOrder(w: World, cids: seq<string>)
    ensures Legal(w, StopEvents(cids)) && Execute(w, StopEvents(cids)) == Stopped(w, cids)
  {
    if cids == [] {
      assert Stopped(w, []) == w;
    } else {
      var front, last := cids[..|cids| - 1], cids[|cids| - 1];
      assert cids == front + [last];
      StopsInOrder(w, front);
      var events := StopEvents(front);
      Extend(w, events, Remove([last]));
      Extend(w, events + [Remove([last])], Forget(last));
      StopStep(w, front, last);
      assert StopEvents(cids) == events + [Remove([last])] + [Forget(last)];
    }
  }

  /** An uninterrupted stop is a run of its steps: each container in turn, then the phase. */
  lemma StopIsARun(w: World, uid: string, cids: seq<string>)
    ensures var events := StopEvents(cids) + [SetPhase(uid, Terminated)];
            Legal(w, events)
            && Execute(w, events) == Stopped(w, cids).(pods := WithPhase(w.pods, uid, Terminated))
  {
    StopsInOrder(w, cids);
    Extend(w, StopEvents(cids), SetPhase(uid, Terminated));
  }
}
