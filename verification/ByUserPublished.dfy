/**
 When the published pid can be trusted, and when stopping everything empties the registry.
 The cleanup of zombies in the boot commands waits for any child, so a child can be taken without the
 registry hearing of it.
 */
module ByUserPublished {
  import opened ByUserSpec
  import opened ByUserRuns

  // ---- History --------------------------------------------------------------------

  /** The keys from position `i` on whose signal finds no process. */
  function Gone(insts: seq<Instance>, i: nat, kills: map<int, Kill>): set<Key>
    requires i <= |insts|
  {
    set j | i <= j < |insts| && insts[j].pid > 0 && KillOf(kills, insts[j].pid) == NoSuchProcess :: insts[j].key
  }

  function UnawareStep(u: set<Key>, r: Registry, ev: Event): set<Key> {
    match ev
    case ReapElsewhere(pid) => if pid in r.children then u + {r.children[pid]} else u
    case Stop(k, kill) => if kill == NoSuchProcess then u - {k} else u
    case StopAll(kills) => u - Gone(r.insts, 0, kills)
    case Reap(pid) => if TakesAnother(r, pid) then u - {r.insts[FindPid(r.insts, pid)].key} + {r.children[pid]} else u
    case Start(_, _) => u
  }

  /** The reap of this child would take away the instance of another key, which records the same pid. */
  predicate TakesAnother(r: Registry, pid: int) {
    var i := FindPid(r.insts, pid);
    pid in r.children && i < |r.insts| && r.insts[i].key != r.children[pid]
  }

  /**
   The keys whose child was waited for without their instance hearing of it, and that no stop has found
   gone since.
   */
  function Unaware(evs: seq<Event>): set<Key> {
    if evs == [] then {}
    else
      var before := evs[..|evs| - 1];
      UnawareStep(Unaware(before), Run(Empty, before), evs[|evs| - 1])
  }

  // ---- What the registry knows ------------------------------------------------------

  /** A recorded pid is the unreaped child of its key, unless the key is in `u`. */
  predicate Knows(r: Registry, u: set<Key>, i: int)
    requires 0 <= i < |r.insts|
  {
    r.insts[i].pid > 0 ==> (TracksAt(r, i, r.insts[i].pid) <==> r.insts[i].key !in u)
  }

  ghost predicate Aware(r: Registry, u: set<Key>) {
    && (forall i | 0 <= i < |r.insts| :: Knows(r, u, i))
    && (forall k | k in u :: PublishedPid(r, k) > 0)
  }

  lemma StatusKeepsAware(r: Registry, u: set<Key>, i: nat, status: Status)
    requires Inv(r) && Aware(r, u) && i < |r.insts|
    ensures Aware(WriteState(r, i, r.insts[i].pid, status), u)
  {
    var r1 := WriteState(r, i, r.insts[i].pid, status);
    forall j | 0 <= j < |r1.insts|
      ensures Knows(r1, u, j)
    {
      assert Knows(r, u, j);
    }
  }

  /** Forgetting a pid that is no child any more. */
  lemma ForgetKeepsAware(r: Registry, u: set<Key>, i: nat, pid: int, status: Status)
    requires Inv(r) && Aware(r, u) && i < |r.insts| && pid <= 0
    ensures Aware(WriteState(r, i, pid, status), u - {r.insts[i].key})
  {
    var r1 := WriteState(r, i, pid, status);
    forall j | 0 <= j < |r1.insts|
      ensures Knows(r1, u - {r.insts[i].key}, j)
    {
      assert Knows(r, u, j);
    }
  }

  lemma RemoveKeepsAware(r: Registry, u: set<Key>, i: nat)
    requires Inv(r) && Aware(r, u) && i < |r.insts| && r.insts[i].pid <= 0
    ensures Aware(Remove(r, i), u)
  {
    var r1 := Remove(r, i);
    forall j | 0 <= j < |r1.insts|
      ensures Knows(r1, u, j) && r1.insts[j] == r.insts[if j < i then j else j + 1]
    {
      assert Knows(r, u, if j < i then j else j + 1);
    }
  }

  lemma CreateKeepsAware(r: Registry, u: set<Key>, k: Key)
    requires Inv(r) && Aware(r, u)
    ensures Aware(GetOrCreate(r, k), u)
  {
    var r1 := GetOrCreate(r, k);
    if Find(r.insts, k) == |r.insts| {
      forall j | 0 <= j < |r1.insts|
        ensures Knows(r1, u, j) && (j > 0 ==> r1.insts[j] == r.insts[j - 1])
      {
        if j > 0 {
          assert Knows(r, u, j - 1);
        }
      }
    }
  }

  lemma ForkKeepsAware(r: Registry, u: set<Key>, i: nat, pid: int)
    requires Inv(r) && Aware(r, u) && i < |r.insts| && r.insts[i].pid <= 0
    requires pid > 0 && pid !in r.children
    ensures Aware(WriteState(r, i, pid, Started).(children := r.children[pid := r.insts[i].key]), u)
  {
    var r1 := WriteState(r, i, pid, Started).(children := r.children[pid := r.insts[i].key]);
    assert PublishedPid(r, r.insts[i].key) == 0;
    forall j | 0 <= j < |r1.insts|
      ensures Knows(r1, u, j)
    {
      assert Knows(r, u, j);
    }
  }

  lemma StartKeepsAware(r: Registry, u: set<Key>, k: Key, env: StartEnv)
    requires Inv(r) && Aware(r, u) && Enabled(r, Start(k, env))
    ensures Aware(StartStep(r, k, env), u)
  {
    CreateKeepsInv(r, k);
    CreateKeepsAware(r, u, k);
    var r1 := GetOrCreate(r, k);
    var i := Find(r1.insts, k);
    if r1.insts[i].pid <= 0 && env.forkPid > 0 {
      ForkKeepsAware(r1, u, i, env.forkPid);
    }
  }

  lemma StopInstanceKeepsAware(r: Registry, u: set<Key>, i: nat, kill: Kill)
    requires Inv(r) && Aware(r, u) && i < |r.insts|
    requires r.insts[i].pid in r.children ==> kill != NoSuchProcess
    ensures Aware(StopInstance(r, i, kill), if r.insts[i].pid > 0 && kill == NoSuchProcess then u - {r.insts[i].key} else u)
  {
    var pid := r.insts[i].pid;
    var r1 := WriteState(r, i, pid, Stopping);
    WriteKeepsInv(r, i, pid, Stopping);
    StatusKeepsAware(r, u, i, Stopping);
    if pid <= 0 {
      StatusKeepsAware(r1, u, i, Stopped);
    } else if kill == NoSuchProcess {
      ForgetKeepsAware(r1, u, i, -1, Stopped);
    }
  }

  lemma StopKeepsAware(r: Registry, u: set<Key>, k: Key, kill: Kill)
    requires Inv(r) && Aware(r, u) && Enabled(r, Stop(k, kill))
    ensures Aware(StopStep(r, k, kill), UnawareStep(u, r, Stop(k, kill)))
  {
    var i := Find(r.insts, k);
    if i < |r.insts| {
      StopInstanceKeepsInv(r, i, kill);
      StopInstanceKeepsAware(r, u, i, kill);
      var r1 := StopInstance(r, i, kill);
      assert r.insts[i].pid <= 0 ==> PublishedPid(r, k) == 0;
      assert kill == NoSuchProcess && r.insts[i].pid <= 0 ==> u - {k} == u;
      if r1.insts[i].pid <= 0 {
        RemoveKeepsAware(r1, UnawareStep(u, r, Stop(k, kill)), i);
      }
    } else {
      NoInstanceNotUnaware(r, u, k);
      assert u - {k} == u;
    }
  }

  lemma NoInstanceNotUnaware(r: Registry, u: set<Key>, k: Key)
    requires Inv(r) && Aware(r, u) && Find(r.insts, k) == |r.insts|
    ensures PublishedPid(r, k) == 0 && k !in u
  {
    assert !HasKey(r.insts, k);
  }

  lemma GoneShrinks(insts: seq<Instance>, i: nat, kills: map<int, Kill>)
    requires i < |insts|
    ensures var first := if insts[i].pid > 0 && KillOf(kills, insts[i].pid) == NoSuchProcess then {insts[i].key} else {};
            && Gone(insts, i, kills) == first + Gone(insts, i + 1, kills)
            && Gone(insts[..i] + insts[i + 1..], i, kills) == Gone(insts, i + 1, kills)
  {
    var rest := insts[..i] + insts[i + 1..];
    assert forall j | i <= j < |rest| :: rest[j] == insts[j + 1];
    assert forall j | i + 1 <= j < |insts| :: insts[j] == rest[j - 1];
  }

  lemma GoneSame(a: seq<Instance>, b: seq<Instance>, i: nat, kills: map<int, Kill>)
    requires i <= |a| == |b| && forall j | i <= j < |a| :: a[j] == b[j]
    ensures Gone(a, i, kills) == Gone(b, i, kills)
  {
  }

  lemma MinusTwice(u: set<Key>, a: set<Key>, b: set<Key>)
    ensures u - a - b == u - (a + b) && u - {} == u
  {
  }

  lemma {:induction false} StopFromKeepsAware(r: Registry, u: set<Key>, i: nat, kills: map<int, Kill>)
    requires Inv(r) && Aware(r, u) && i <= |r.insts|
    requires forall p | p in r.children :: KillOf(kills, p) != NoSuchProcess
    ensures Aware(StopFrom(r, i, kills), u - Gone(r.insts, i, kills))
    decreases |r.insts| - i
  {
    if i == |r.insts| {
      assert u - Gone(r.insts, i, kills) == u;
    } else {
      var inst := r.insts[i];
      var kill := KillOf(kills, inst.pid);
      var first := if inst.pid > 0 && kill == NoSuchProcess then {inst.key} else {};
      var u1 := u - first;
      StopInstanceKeepsInv(r, i, kill);
      StopInstanceKeepsAware(r, u, i, kill);
      var r1 := StopInstance(r, i, kill);
      GoneShrinks(r.insts, i, kills);
      GoneSame(r.insts, r1.insts, i + 1, kills);
      MinusTwice(u, first, Gone(r.insts, i + 1, kills));
      if r1.insts[i].pid <= 0 {
        RemoveKeepsInv(r1, i);
        RemoveKeepsAware(r1, u1, i);
        GoneShrinks(r1.insts, i, kills);
        StopFromKeepsAware(Remove(r1, i), u1, i, kills);
      } else {
        StopFromKeepsAware(r1, u1, i + 1, kills);
      }
    }
  }

  lemma TakenKeepsAware(r: Registry, u: set<Key>, pid: int)
    requires Inv(r) && Aware(r, u) && pid in r.children
    ensures Aware(r.(children := r.children - {pid}), u + {r.children[pid]})
    ensures r.children[pid] !in u
  {
    var r1, k := r.(children := r.children - {pid}), r.children[pid];
    InvIsSound(r);
    assert Knows(r, u, Find(r.insts, k));
    forall j | 0 <= j < |r1.insts|
      ensures Knows(r1, u + {k}, j)
    {
      assert Knows(r, u, j);
    }
  }

  lemma ReapKeepsAware(r: Registry, u: set<Key>, pid: int)
    requires Inv(r) && Aware(r, u) && pid in r.children
    ensures Aware(ReapStep(r, pid), UnawareStep(u, r, Reap(pid)))
  {
    var r0, k := r.(children := r.children - {pid}), r.children[pid];
    InvIsSound(r);
    ForgetChildKeepsInv(r, pid);
    TakenKeepsAware(r, u, pid);
    var i := FindPid(r.insts, pid);
    assert r.insts[Find(r.insts, k)].pid == pid;
    WriteKeepsInv(r0, i, -1, Stopped);
    ForgetKeepsAware(r0, u + {k}, i, -1, Stopped);
    assert u + {k} - {r.insts[i].key} == UnawareStep(u, r, Reap(pid));
    RemoveKeepsAware(WriteState(r0, i, -1, Stopped), UnawareStep(u, r, Reap(pid)), i);
  }

  lemma StepKeepsAware(r: Registry, u: set<Key>, ev: Event)
    requires Inv(r) && Aware(r, u) && Enabled(r, ev)
    ensures Aware(Step(r, ev), UnawareStep(u, r, ev))
  {
    match ev
    case Start(k, env) => StartKeepsAware(r, u, k, env);
    case Stop(k, kill) => StopKeepsAware(r, u, k, kill);
    case StopAll(kills) => StopFromKeepsAware(r, u, 0, kills);
    case Reap(pid) => ReapKeepsAware(r, u, pid);
    case ReapElsewhere(pid) => TakenKeepsAware(r, u, pid);
  }

  lemma {:induction false} RunKeepsAware(evs: seq<Event>)
    requires Legal(Empty, evs)
    ensures Inv(Run(Empty, evs)) && Aware(Run(Empty, evs), Unaware(evs))
  {
    OneChildPerUser(evs);
    if evs != [] {
      var before := evs[..|evs| - 1];
      RunKeepsAware(before);
      StepKeepsAware(Run(Empty, before), Unaware(before), evs[|evs| - 1]);
    }
  }

  // ---- The published pid ------------------------------------------------------------

  /** The pid published for `k` is that of its unreaped child, or zero without one. */
  predicate Truthful(r: Registry, k: Key) {
    var p := PublishedPid(r, k);
    if p == 0 then (forall q | q in r.children :: r.children[q] != k) else p in r.children && r.children[p] == k
  }

  /**
   In every run, the pid published for a key is its child's or zero if and only if no child of the key was
   waited for behind its back without a later stop finding it gone.
   */
  lemma {:induction false} PublishedExactlyWhen(evs: seq<Event>, k: Key)
    requires Legal(Empty, evs)
    ensures Truthful(Run(Empty, evs), k) <==> k !in Unaware(evs)
  {
    RunKeepsAware(evs);
    var r, u := Run(Empty, evs), Unaware(evs);
    InvIsSound(r);
    var i := Find(r.insts, k);
    if i < |r.insts| {
      assert Knows(r, u, i);
    } else {
      NoInstanceNotUnaware(r, u, k);
    }
  }

  /** When all children are waited for by the registry, the published pids are right. */
  lemma {:induction false} PublishedWithoutElsewhere(evs: seq<Event>, k: Key)
    requires Legal(Empty, evs) && forall ev | ev in evs :: !ev.ReapElsewhere?
    ensures Unaware(evs) == {} && Truthful(Run(Empty, evs), k)
  {
    NothingTaken(evs);
    PublishedExactlyWhen(evs, k);
  }

  lemma {:induction false} NothingTaken(evs: seq<Event>)
    requires Legal(Empty, evs) && forall ev | ev in evs :: !ev.ReapElsewhere?
    ensures Unaware(evs) == {}
  {
    if evs != [] {
      var before, last := evs[..|evs| - 1], evs[|evs| - 1];
      assert last in evs && forall ev | ev in before :: ev in evs;
      NothingTaken(before);
      RunKeepsAware(before);
      NothingStale(Run(Empty, before), last);
    }
  }

  lemma NothingStale(r: Registry, ev: Event)
    requires Inv(r) && Aware(r, {}) && Enabled(r, ev) && !ev.ReapElsewhere?
    ensures UnawareStep({}, r, ev) == {}
  {
    if ev.Reap? && FindPid(r.insts, ev.pid) < |r.insts| {
      assert Knows(r, {}, FindPid(r.insts, ev.pid));
    }
  }

  function StartWith(k: Key, pid: int): Event { Start(k, StartEnv(true, true, false, true, true, true, pid)) }

  lemma RunAppend(evs: seq<Event>, ev: Event)
    ensures Run(Empty, evs + [ev]) == Step(Run(Empty, evs), ev)
    ensures Legal(Empty, evs + [ev]) <==> Legal(Empty, evs) && Enabled(Run(Empty, evs), ev)
  {
    assert (evs + [ev])[..|evs|] == evs;
  }

  lemma FirstStart(k: Key, pid: int)
    ensures var r := Run(Empty, [StartWith(k, pid)]);
            && Legal(Empty, [StartWith(k, pid)])
            && (pid > 0 ==> r == Registry([Instance(k, pid, Started)], map[k := Shown(Started, pid)], map[pid := k]))
            && (pid <= 0 ==> r == Registry([Instance(k, -1, Idle)], map[], map[]))
  {
    RunAppend([], StartWith(k, pid));
    assert [] + [StartWith(k, pid)] == [StartWith(k, pid)];
    assert GetOrCreate(Empty, k).insts == [Instance(k, -1, Idle)];
  }

  /** The smallest failure: the child is waited for elsewhere and its pid stays published. */
  lemma TakenChildStaysPublished(k: Key)
    ensures var evs := [StartWith(k, 7), ReapElsewhere(7)];
            var r := Run(Empty, evs);
            && Legal(Empty, evs) && PublishedPid(r, k) == 7 && r.children == map[]
            && !Truthful(r, k) && Unaware(evs) == {k}
  {
    var start, evs := StartWith(k, 7), [StartWith(k, 7), ReapElsewhere(7)];
    FirstStart(k, 7);
    assert [start] + [ReapElsewhere(7)] == evs;
    RunAppend([start], ReapElsewhere(7));
    assert evs[..1] == [start] && [start][..0] == [];
    assert Unaware([start]) == {} && Unaware(evs) == {} + {k};
  }

  // ---- Reused pids ----------------------------------------------------------------

  /**
   A reap finds the instance of the child's own key exactly when no instance in front of it records the
   same pid, which takes a pid that was handed out again while still recorded.
   */
  lemma ReapFindsOwnExactlyWhen(r: Registry, pid: int)
    requires Inv(r) && pid in r.children
    ensures var own := Find(r.insts, r.children[pid]);
            FindPid(r.insts, pid) == own <==> forall i | 0 <= i < own :: r.insts[i].pid != pid
  {
    InvIsSound(r);
  }

  /** A run in which the reap of a reused pid takes away another key's instance and leaves its own behind. */
  lemma ReusedPidReapsAnother(a: Key, b: Key)
    requires a != b
    ensures var evs := [StartWith(a, -1), StartWith(b, 7), ReapElsewhere(7), StartWith(a, 7), Reap(7)];
            var r := Run(Empty, evs);
            Legal(Empty, evs) && r.insts == [Instance(a, 7, Started)] && r.children == map[]
  {
    var e0, e1, e2, e3, e4 := StartWith(a, -1), StartWith(b, 7), ReapElsewhere(7), StartWith(a, 7), Reap(7);
    FirstStart(a, -1);
    RunAppend([e0], e1);
    assert [e0] + [e1] == [e0, e1];
    var r1 := Run(Empty, [e0, e1]);
    assert GetOrCreate(Run(Empty, [e0]), b).insts == [Instance(b, -1, Idle), Instance(a, -1, Idle)];
    assert r1.insts == [Instance(b, 7, Started), Instance(a, -1, Idle)] && r1.children == map[7 := b];
    RunAppend([e0, e1], e2);
    assert [e0, e1] + [e2] == [e0, e1, e2];
    var r2 := Run(Empty, [e0, e1, e2]);
    assert r2.insts == r1.insts && r2.children == map[];
    RunAppend([e0, e1, e2], e3);
    assert [e0, e1, e2] + [e3] == [e0, e1, e2, e3];
    assert Find(r2.insts, a) == 1;
    var r3 := Run(Empty, [e0, e1, e2, e3]);
    assert r3.insts == [Instance(b, 7, Started), Instance(a, 7, Started)] && r3.children == map[7 := a];
    RunAppend([e0, e1, e2, e3], e4);
    assert [e0, e1, e2, e3] + [e4] == [e0, e1, e2, e3, e4];
    assert FindPid(r3.insts, 7) == 0;
  }

  // ---- Shutting every instance down -------------------------------------------------

  predicate AllStopping(insts: seq<Instance>) {
    StoppingBefore(insts, |insts|)
  }

  /** Everything before `i` has been told to stop and still records a pid. */
  predicate StoppingBefore(insts: seq<Instance>, i: nat) {
    i <= |insts| && forall j | 0 <= j < i :: insts[j].pid > 0 && insts[j].status == Stopping
  }

  /** Every instance has a child of its own to wait for. */
  predicate AllHaveChildren(r: Registry) {
    forall j | 0 <= j < |r.insts| :: TracksAt(r, j, r.insts[j].pid)
  }

  predicate Drained(r: Registry) {
    r.insts == [] && r.children == map[] && forall k | k in r.params :: r.params[k].pid == 0
  }

  predicate OnlyReaps(evs: seq<Event>) {
    forall ev | ev in evs :: ev.Reap? || ev.ReapElsewhere?
  }

  lemma {:induction false} StopFromOutcome(r: Registry, i: nat, kills: map<int, Kill>)
    requires i <= |r.insts| && StoppingBefore(r.insts, i)
    ensures AllStopping(StopFrom(r, i, kills).insts)
    decreases |r.insts| - i
  {
    if i < |r.insts| {
      var r1 := StopInstance(r, i, KillOf(kills, r.insts[i].pid));
      if r1.insts[i].pid <= 0 {
        StopFromOutcome(Remove(r1, i), i, kills);
      } else {
        StopFromOutcome(r1, i + 1, kills);
      }
    }
  }

  lemma ChildrenExactlyWhen(r: Registry, u: set<Key>)
    requires Inv(r) && Aware(r, u) && forall j | 0 <= j < |r.insts| :: r.insts[j].pid > 0
    ensures AllHaveChildren(r) <==> u == {}
  {
    if AllHaveChildren(r) {
      forall k
        ensures k !in u
      {
        var i := Find(r.insts, k);
        if i < |r.insts| {
          assert TracksAt(r, i, r.insts[i].pid) && Knows(r, u, i);
        } else {
          NoInstanceNotUnaware(r, u, k);
        }
      }
    } else {
      var j :| 0 <= j < |r.insts| && !TracksAt(r, j, r.insts[j].pid);
      assert Knows(r, u, j);
    }
  }

  /** One reap of the first instance's child, when every instance has one. */
  lemma ReapFirst(r: Registry)
    requires Inv(r) && r.insts != [] && AllHaveChildren(r)
    ensures var ev := Reap(r.insts[0].pid); var r1 := Step(r, ev);
            Enabled(r, ev) && r1.insts == r.insts[1..] && AllHaveChildren(r1)
  {
    var pid := r.insts[0].pid;
    var r0 := r.(children := r.children - {pid});
    var r1 := Step(r, Reap(pid));
    assert TracksAt(r, 0, pid) && pid > 0;
    assert FindPid(r.insts, pid) == 0;
    assert r1 == Remove(WriteState(r0, 0, -1, Stopped), 0) && r1.children == r0.children;
    assert r1.insts == r.insts[1..];
    forall j | 0 <= j < |r1.insts|
      ensures TracksAt(r1, j, r1.insts[j].pid)
    {
      assert TracksAt(r, j + 1, r.insts[j + 1].pid);
    }
  }

  lemma EmptyIsDrained(r: Registry)
    requires Inv(r) && r.insts == []
    ensures Drained(r)
  {
    assert forall p | p in r.children :: exists i :: TracksAt(r, i, p);
    assert r.children == map[];
  }

  /** When every instance has a child, waiting for those children empties the registry. */
  lemma {:induction false} ReapsDrain(evs: seq<Event>) returns (reaps: seq<Event>)
    requires Legal(Empty, evs) && AllHaveChildren(Run(Empty, evs))
    ensures OnlyReaps(reaps) && Legal(Empty, evs + reaps) && Drained(Run(Empty, evs + reaps))
    decreases |Run(Empty, evs).insts|
  {
    var r := Run(Empty, evs);
    OneChildPerUser(evs);
    if r.insts == [] {
      reaps := [];
      assert evs + reaps == evs;
      EmptyIsDrained(r);
    } else {
      var ev := Reap(r.insts[0].pid);
      ReapFirst(r);
      RunAppend(evs, ev);
      var more := ReapsDrain(evs + [ev]);
      reaps := [ev] + more;
      assert evs + reaps == evs + [ev] + more;
    }
  }

  lemma ReapsTeachNothing(u: set<Key>, r: Registry, ev: Event)
    requires u != {} && (ev.Reap? || ev.ReapElsewhere?)
    ensures UnawareStep(u, r, ev) != {}
  {
    if ev.pid in r.children {
      var k := r.children[ev.pid];
      assert k in u + {k};
    }
  }

  lemma {:induction false} StaysUnaware(evs: seq<Event>, reaps: seq<Event>)
    requires Legal(Empty, evs + reaps) && OnlyReaps(reaps) && Unaware(evs) != {}
    ensures Unaware(evs + reaps) != {}
  {
    if reaps == [] {
      assert evs + reaps == evs;
    } else {
      var before, last := reaps[..|reaps| - 1], reaps[|reaps| - 1];
      assert last in reaps && forall ev | ev in before :: ev in reaps;
      assert (evs + reaps)[..|evs + reaps| - 1] == evs + before;
      StaysUnaware(evs, before);
      ReapsTeachNothing(Unaware(evs + before), Run(Empty, evs + before), last);
    }
  }

  lemma UnawareKeepsInstances(evs: seq<Event>)
    requires Legal(Empty, evs) && Unaware(evs) != {}
    ensures Run(Empty, evs).insts != []
  {
    RunKeepsAware(evs);
    var k :| k in Unaware(evs);
    if Run(Empty, evs).insts == [] {
      NoInstanceNotUnaware(Run(Empty, evs), Unaware(evs), k);
    }
  }

  /** Some sequence of waits for children empties the registry. */
  ghost predicate CanDrain(evs: seq<Event>) {
    exists reaps :: OnlyReaps(reaps) && Legal(Empty, evs + reaps) && Drained(Run(Empty, evs + reaps))
  }

  /**
   Shutting down: after stop-all every instance left is stopping. Each of them has an unreaped child of its
   own, and waiting for children can empty the registry, if and only if the stop found every child gone
   that had been waited for behind the registry's back.
   */
  lemma {:induction false} StopAllDrainsExactlyWhen(evs: seq<Event>, kills: map<int, Kill>)
    requires Legal(Empty, evs + [StopAll(kills)])
    ensures var all := evs + [StopAll(kills)]; var r := Run(Empty, all);
            && AllStopping(r.insts)
            && (AllHaveChildren(r) <==> Unaware(evs) <= Gone(Run(Empty, evs).insts, 0, kills))
            && (CanDrain(all) <==> Unaware(evs) <= Gone(Run(Empty, evs).insts, 0, kills))
  {
    var all := evs + [StopAll(kills)];
    var r := Run(Empty, all);
    RunAppend(evs, StopAll(kills));
    StopFromOutcome(Run(Empty, evs), 0, kills);
    RunKeepsAware(all);
    assert all[..|evs|] == evs;
    var u, gone := Unaware(evs), Gone(Run(Empty, evs).insts, 0, kills);
    assert Unaware(all) == u - gone;
    assert u - gone == {} <==> u <= gone by {
      assert forall k | k in u :: k in gone || k in u - gone;
    }
    ChildrenExactlyWhen(r, Unaware(all));
    if AllHaveChildren(r) {
      var reaps := ReapsDrain(all);
    } else {
      forall reaps | OnlyReaps(reaps) && Legal(Empty, all + reaps)
        ensures !Drained(Run(Empty, all + reaps))
      {
        StaysUnaware(all, reaps);
        UnawareKeepsInstances(all + reaps);
      }
    }
  }

  lemma StopSingle(r: Registry, k: Key, pid: int)
    requires r.insts == [Instance(k, pid, Started)] && pid > 0
    ensures StopFrom(r, 0, map[]) ==
            r.(insts := [Instance(k, pid, Stopping)], params := r.params[k := Shown(Stopping, pid)])
  {
    var r1 := StopInstance(r, 0, KillOk);
    assert r1.insts == [Instance(k, pid, Stopping)];
    assert StopFrom(r1, 1, map[]) == r1;
  }

  /** The smallest run that cannot drain: the instance waits for a child that somebody else has reaped. */
  lemma StaleInstanceNeverDrains(k: Key)
    ensures var all := [StartWith(k, 7), ReapElsewhere(7), StopAll(map[])];
            var r := Run(Empty, all);
            && Legal(Empty, all) && r.insts == [Instance(k, 7, Stopping)] && r.children == map[]
            && PublishedPid(r, k) == 7 && !CanDrain(all)
  {
    var start, taken, stop := StartWith(k, 7), ReapElsewhere(7), StopAll(map[]);
    TakenChildStaysPublished(k);
    FirstStart(k, 7);
    RunAppend([start], taken);
    assert [start] + [taken] == [start, taken];
    var r := Run(Empty, [start, taken]);
    RunAppend([start, taken], stop);
    assert [start, taken] + [stop] == [start, taken, stop];
    StopSingle(r, k, 7);
    StopAllDrainsExactlyWhen([start, taken], map[]);
    assert k in Unaware([start, taken]) && k !in Gone(r.insts, 0, map[]);
  }
}
